/** Differences between two messages, the header actions generated from them, and the header patch
    those actions become (src/filters/editor.rs, src/filters/runtime.rs, src/mitm/flow/filter_bridge.rs). */
module Edits {
  import opened Wrappers
  import opened Text
  import opened Messages
  import opened Numbers
  import opened BodyRewrite

  // ----- header lists, looked up without regard to ASCII case

  /** The values of every header whose lower-cased name is `key`, in order. */
  function ValuesOf(headers: seq<Header>, key: string): seq<string> {
    if headers == [] then []
    else (if Lower(headers[0].name) == key then [headers[0].value] else []) + ValuesOf(headers[1..], key)
  }

  /** The value of the first header with this name. */
  function HeaderValue(headers: seq<Header>, name: string): (r: Option<string>)
    ensures r == if ValuesOf(headers, Lower(name)) == [] then None else Some(ValuesOf(headers, Lower(name))[0])
  {
    if headers == [] then None
    else if EqIgnoreCase(headers[0].name, name) then Some(headers[0].value)
    else HeaderValue(headers[1..], name)
  }

  // ----- the difference

  datatype HeaderChange = HeaderChange(name: string, originalValue: string, editedValue: string)

  datatype Diff = Diff(
    kind: Kind,
    methodChanged: bool,
    hostChanged: bool,
    pathChanged: bool,
    queryChanged: bool,
    statusChanged: bool,
    added: seq<Header>,
    removed: seq<Header>,
    changed: seq<HeaderChange>,
    bodyChanged: bool)
  {
    predicate HasChanges() {
      methodChanged || hostChanged || pathChanged || queryChanged || statusChanged
      || added != [] || removed != [] || changed != [] || bodyChanged
    }
  }

  /** The headers of `these` whose name does not occur in `others`. */
  function Missing(these: seq<Header>, others: seq<Header>): seq<Header> {
    if these == [] then []
    else (if HeaderValue(others, these[0].name).None? then [these[0]] else []) + Missing(these[1..], others)
  }

  /** A header whose value differs from the first new value of its name. */
  function ChangeOf(h: Header, edited: seq<Header>): seq<HeaderChange> {
    match HeaderValue(edited, h.name)
    case None => []
    case Some(v) => if v == h.value then [] else [HeaderChange(h.name, h.value, v)]
  }

  function Changed(original: seq<Header>, edited: seq<Header>): seq<HeaderChange> {
    if original == [] then [] else ChangeOf(original[0], edited) + Changed(original[1..], edited)
  }

  function DiffOf(original: Message, edited: Message): Diff {
    Diff(
      original.kind,
      original.verb != edited.verb,
      original.host != edited.host,
      original.path != edited.path,
      original.query != edited.query,
      original.status != edited.status,
      Missing(edited.headers, original.headers),
      Missing(original.headers, edited.headers),
      Changed(original.headers, edited.headers),
      original.BodyText() != edited.BodyText())
  }

  lemma {:induction false} MissingIsEmpty(these: seq<Header>, others: seq<Header>)
    ensures Missing(these, others) == [] <==> forall h :: h in these ==> HeaderValue(others, h.name).Some?
  {
    if these != [] {
      MissingIsEmpty(these[1..], others);
      assert forall h :: h in these <==> h == these[0] || h in these[1..];
    }
  }

  lemma {:induction false} ChangedIsEmpty(original: seq<Header>, edited: seq<Header>)
    ensures Changed(original, edited) == [] <==>
            forall h :: h in original ==> HeaderValue(edited, h.name) in {None, Some(h.value)}
  {
    if original != [] {
      ChangedIsEmpty(original[1..], edited);
      assert forall h :: h in original <==> h == original[0] || h in original[1..];
    }
  }

  lemma {:induction false} OwnNameIsFound(headers: seq<Header>, h: Header)
    requires h in headers
    ensures HeaderValue(headers, h.name).Some?
  {
    if h != headers[0] {
      OwnNameIsFound(headers[1..], h);
    }
  }

  /** When two messages count as the same. The scheme, the content type of the body and the size of
      a binary body are not compared. */
  predicate SameForDiff(a: Message, b: Message) {
    && a.verb == b.verb && a.host == b.host && a.path == b.path && a.query == b.query
    && a.status == b.status && a.BodyText() == b.BodyText()
    && (forall h :: h in b.headers ==> HeaderValue(a.headers, h.name).Some?)
    && (forall h :: h in a.headers ==> HeaderValue(b.headers, h.name) == Some(h.value))
  }

  lemma NoChangesExactly(a: Message, b: Message)
    ensures !DiffOf(a, b).HasChanges() <==> SameForDiff(a, b)
  {
    MissingIsEmpty(a.headers, b.headers);
    MissingIsEmpty(b.headers, a.headers);
    ChangedIsEmpty(a.headers, b.headers);
  }

  /** Every header has the value of the first header of its name. */
  predicate FirstValuesOnly(headers: seq<Header>) {
    forall h :: h in headers ==> HeaderValue(headers, h.name) == Some(h.value)
  }

  /** Comparing a message with itself reports changes exactly when two headers of one name differ. */
  lemma NoSpuriousEdits(m: Message)
    ensures !DiffOf(m, m).HasChanges() <==> FirstValuesOnly(m.headers)
  {
    NoChangesExactly(m, m);
    forall h | h in m.headers ensures HeaderValue(m.headers, h.name).Some? {
      OwnNameIsFound(m.headers, h);
    }
  }

  /** Two set-cookie headers: an untouched message is reported as edited. */
  lemma SpuriousEdit(m: Message)
    requires m.headers == [Header("set-cookie", "a=1"), Header("Set-Cookie", "b=2")]
    ensures DiffOf(m, m).HasChanges()
  {
    var h := m.headers[1];
    assert h in m.headers;
    assert Lower("set-cookie") == Lower("Set-Cookie");
    assert HeaderValue(m.headers, h.name) == Some("a=1");
    assert h.value[0] == 'b';
    NoSpuriousEdits(m);
  }

  // ----- the generated actions and the data they build up

  datatype Action =
    | Mark(text: string)
    | SetHeader(target: Kind, name: string, value: string)
    | RemoveHeader(target: Kind, name: string)
    | SetBody(target: Kind, body: string, contentType: string)
    | RewriteBody(target: Kind, rewrite: Rewrite)
    | SetStatus(status: U16)
    | Stop
    | Drop

  function Removals(kind: Kind, headers: seq<Header>): seq<Action> {
    seq(|headers|, i requires 0 <= i < |headers| => RemoveHeader(kind, headers[i].name))
  }

  function Changes(kind: Kind, changes: seq<HeaderChange>): seq<Action> {
    seq(|changes|, i requires 0 <= i < |changes| => SetHeader(kind, changes[i].name, changes[i].editedValue))
  }

  function Additions(kind: Kind, headers: seq<Header>): seq<Action> {
    seq(|headers|, i requires 0 <= i < |headers| => SetHeader(kind, headers[i].name, headers[i].value))
  }

  function HeaderActionsOf(diff: Diff): seq<Action> {
    Removals(diff.kind, diff.removed) + Changes(diff.kind, diff.changed) + Additions(diff.kind, diff.added)
  }

  method HeaderActions(diff: Diff) returns (actions: seq<Action>)
    ensures actions == HeaderActionsOf(diff)
  {
    actions := [];
    for i := 0 to |diff.removed|
      invariant actions == Removals(diff.kind, diff.removed[..i])
    {
      actions := actions + [RemoveHeader(diff.kind, diff.removed[i].name)];
    }
    ghost var before := actions;
    for i := 0 to |diff.changed|
      invariant actions == before + Changes(diff.kind, diff.changed[..i])
    {
      actions := actions + [SetHeader(diff.kind, diff.changed[i].name, diff.changed[i].editedValue)];
    }
    before := actions;
    for i := 0 to |diff.added|
      invariant actions == before + Additions(diff.kind, diff.added[..i])
    {
      actions := actions + [SetHeader(diff.kind, diff.added[i].name, diff.added[i].value)];
    }
    assert diff.removed[..|diff.removed|] == diff.removed;
    assert diff.changed[..|diff.changed|] == diff.changed;
    assert diff.added[..|diff.added|] == diff.added;
  }

  /** The action object a filter returns. */
  datatype ActionData = ActionData(
    status: Option<U16>,
    setHeaders: seq<Header>,
    removeHeaders: seq<string>,
    marks: seq<string>,
    bodyText: Option<string>,
    bodyContentType: Option<string>,
    rewrites: seq<Rewrite>,
    stop: bool,
    drop: bool)

  const PASS := ActionData(None, [], [], [], None, None, [], false, false)

  /** One call in the action chain. An action for the other kind of message is written as a comment. */
  function Apply(data: ActionData, phase: Kind, action: Action): ActionData {
    match action
    case Mark(text) => data.(marks := data.marks + [text])
    case SetHeader(target, name, value) =>
      if target == phase then data.(setHeaders := data.setHeaders + [Header(name, value)]) else data
    case RemoveHeader(target, name) =>
      if target == phase then data.(removeHeaders := data.removeHeaders + [name]) else data
    case SetBody(target, body, contentType) =>
      if target == phase then
        data.(bodyText := Some(body),
              bodyContentType := if contentType != "" then Some(contentType) else data.bodyContentType)
      else data
    case RewriteBody(target, rewrite) =>
      if target == phase then data.(rewrites := data.rewrites + [rewrite]) else data
    case SetStatus(n) => if phase.Response? then data.(status := Some(n)) else data
    case Stop => data.(stop := true)
    case Drop => data.(stop := true, drop := true)
  }

  function RunChain(data: ActionData, phase: Kind, actions: seq<Action>): ActionData
    decreases |actions|
  {
    if actions == [] then data else RunChain(Apply(data, phase, actions[0]), phase, actions[1..])
  }

  lemma {:induction false} RunChainConcat(data: ActionData, phase: Kind, a: seq<Action>, b: seq<Action>)
    ensures RunChain(data, phase, a + b) == RunChain(RunChain(data, phase, a), phase, b)
    decreases |a|
  {
    if a == [] {
      assert a + b == b;
    } else {
      assert (a + b)[1..] == a[1..] + b;
      RunChainConcat(Apply(data, phase, a[0]), phase, a[1..], b);
    }
  }

  function SetsOf(diff: Diff): seq<Header> {
    seq(|diff.changed|, i requires 0 <= i < |diff.changed| => Header(diff.changed[i].name, diff.changed[i].editedValue))
    + diff.added
  }

  function NamesOf(headers: seq<Header>): seq<string> {
    seq(|headers|, i requires 0 <= i < |headers| => headers[i].name)
  }

  lemma {:induction false} RunSets(data: ActionData, phase: Kind, actions: seq<Action>, sets: seq<Header>)
    requires |actions| == |sets|
    requires forall i :: 0 <= i < |sets| ==> actions[i] == SetHeader(phase, sets[i].name, sets[i].value)
    ensures RunChain(data, phase, actions) == data.(setHeaders := data.setHeaders + sets)
    decreases |actions|
  {
    if actions == [] {
      assert data.setHeaders + sets == data.setHeaders;
    } else {
      RunSets(Apply(data, phase, actions[0]), phase, actions[1..], sets[1..]);
      assert data.setHeaders + [sets[0]] + sets[1..] == data.setHeaders + sets;
    }
  }

  lemma {:induction false} RunRemovals(data: ActionData, phase: Kind, headers: seq<Header>)
    ensures RunChain(data, phase, Removals(phase, headers)) ==
            data.(removeHeaders := data.removeHeaders + NamesOf(headers))
    decreases |headers|
  {
    if headers == [] {
      assert data.removeHeaders + NamesOf(headers) == data.removeHeaders;
    } else {
      assert Removals(phase, headers)[1..] == Removals(phase, headers[1..]);
      RunRemovals(Apply(data, phase, Removals(phase, headers)[0]), phase, headers[1..]);
      assert data.removeHeaders + [headers[0].name] + NamesOf(headers[1..]) == data.removeHeaders + NamesOf(headers);
    }
  }

  lemma RunHeaderActions(data: ActionData, diff: Diff)
    ensures RunChain(data, diff.kind, HeaderActionsOf(diff)) ==
            data.(removeHeaders := data.removeHeaders + NamesOf(diff.removed),
                  setHeaders := data.setHeaders + SetsOf(diff))
  {
    var a, b := Removals(diff.kind, diff.removed), Changes(diff.kind, diff.changed) + Additions(diff.kind, diff.added);
    assert HeaderActionsOf(diff) == a + b;
    RunChainConcat(data, diff.kind, a, b);
    RunRemovals(data, diff.kind, diff.removed);
    RunSets(RunChain(data, diff.kind, a), diff.kind, b, SetsOf(diff));
  }
}
