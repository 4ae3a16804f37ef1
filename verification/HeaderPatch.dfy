/** Applying a patch to the headers, status and body of a live message
    (src/mitm/flow/filter_bridge.rs), and what the generated patch achieves. */
module HeaderPatch {
  import opened Wrappers
  import opened Text
  import opened Numbers
  import opened Messages
  import opened BodyRewrite
  import opened Edits

  /** Values by lower-cased name; names without a value are absent. */
  type HeaderMap = map<string, seq<string>>

  /** What the HTTP library accepts as a name, a value, a status and a method, and what it reads a path
      with a query as. */
  datatype Rules = Rules(
    validName: string -> bool, validValue: string -> bool, validStatus: U16 -> bool, validVerb: string -> bool,
    readTarget: string -> Option<string>)

  datatype BodyPatch = BodyPatch(bytes: string, contentType: Option<string>)

  /** Requests have a method and a target, responses a status. */
  datatype Patch = Patch(
    verb: Option<string>, path: Option<string>, query: Option<string>,
    status: Option<U16>, setHeaders: seq<Header>, removeHeaders: seq<string>, body: Option<BodyPatch>)

  datatype Parts = Parts(verb: string, target: string, status: U16, headers: HeaderMap, body: string)

  /** The body an action asks for: one that is set goes before one that is rewritten. */
  function IntoBodyPatch(applyPatch: (string, string) -> Option<string>, data: ActionData, text: Option<string>)
    : Option<BodyPatch>
  {
    match data.bodyText
    case Some(body) => Some(BodyPatch(body, data.bodyContentType))
    case None =>
      match RewrittenBody(applyPatch, text, data.rewrites)
      case None => None
      case Some(r) =>
        Some(BodyPatch(r.body, if r.contentType.Some? then r.contentType else data.bodyContentType))
  }

  /** The patch of an action, if it asks for anything; `text` is the text of the body it runs on. */
  function IntoPatch(applyPatch: (string, string) -> Option<string>, data: ActionData, text: Option<string>)
    : Option<Patch>
  {
    var body := IntoBodyPatch(applyPatch, data, text);
    if data.status.None? && data.setHeaders == [] && data.removeHeaders == [] && body.None? then None
    else Some(Patch(None, None, None, data.status, data.setHeaders, data.removeHeaders, body))
  }

  function RemoveNames(rules: Rules, h: HeaderMap, names: seq<string>): HeaderMap
    decreases |names|
  {
    if names == [] then h
    else RemoveNames(rules, if rules.validName(names[0]) then h - {Lower(names[0])} else h, names[1..])
  }

  function InsertHeaders(rules: Rules, h: HeaderMap, sets: seq<Header>): HeaderMap
    decreases |sets|
  {
    if sets == [] then h
    else
      var s := sets[0];
      InsertHeaders(rules,
                    if rules.validName(s.name) && rules.validValue(s.value) then h[Lower(s.name) := [s.value]] else h,
                    sets[1..])
  }

  const INTEGRITY_HEADERS := {"content-length", "content-encoding", "etag", "content-md5"}

  function PatchHeaders(rules: Rules, h: HeaderMap, sets: seq<Header>, removes: seq<string>): HeaderMap {
    InsertHeaders(rules, RemoveNames(rules, h, removes), sets)
  }

  function PatchBodyHeaders(rules: Rules, h: HeaderMap, contentType: Option<string>): HeaderMap {
    var h := h - INTEGRITY_HEADERS;
    if contentType.Some? && rules.validValue(contentType.value) then h["content-type" := [contentType.value]] else h
  }

  function At(h: HeaderMap, key: string): seq<string> {
    if key in h then h[key] else []
  }

  /** The headers behind a new body: the four that described the old one are gone, the content type is
      the given one if it is valid, and everything else is as it was left. */
  ghost predicate DescribesNewBody(rules: Rules, h: HeaderMap, left: HeaderMap, contentType: Option<string>) {
    && "content-length" !in h && "content-encoding" !in h && "etag" !in h && "content-md5" !in h
    && At(h, "content-type") ==
       (if contentType.Some? && rules.validValue(contentType.value) then [contentType.value]
        else At(left, "content-type"))
    && forall k :: k !in {"content-length", "content-encoding", "etag", "content-md5", "content-type"} ==>
                     At(h, k) == At(left, k)
  }

  lemma IntegrityNames()
    ensures INTEGRITY_HEADERS == {"content-length", "content-encoding", "etag", "content-md5"}
    ensures "content-type" !in INTEGRITY_HEADERS
  {
    assert |"content-type"| == 12;
    assert |"content-length"| == 14 && |"content-encoding"| == 16 && |"etag"| == 4 && |"content-md5"| == 11;
  }

  lemma BodyHeadersDescribe(rules: Rules, h: HeaderMap, contentType: Option<string>)
    ensures DescribesNewBody(rules, PatchBodyHeaders(rules, h, contentType), h, contentType)
  {
    IntegrityNames();
  }

  /** Path and query of the patch where it has them, otherwise those of the target. */
  function PatchedTarget(rules: Rules, target: string, path: Option<string>, query: Option<string>): string {
    if path.None? && query.None? then target
    else
      var own := match SplitOnce(target, '?') case None => None case Some((_, q)) => Some(q);
      var nextPath := path.GetOr(Before(target, '?'));
      var nextQuery := (if query.Some? then query else own).GetOr("");
      rules.readTarget(if nextQuery != "" then nextPath + "?" + nextQuery else nextPath).GetOr(target)
  }

  /** The old target read as a path and perhaps a query: the patch replaces what it names, keeps the
      rest, leaves out an empty query, and changes nothing if the result cannot be read. */
  lemma PatchedTargetExactly(
      rules: Rules, own: string, ownQuery: Option<string>, path: Option<string>, query: Option<string>)
    requires '?' !in own
    ensures var target := if ownQuery.Some? then own + "?" + ownQuery.value else own;
      var nextPath := if path.Some? then path.value else own;
      var nextQuery := if query.Some? then query.value else if ownQuery.Some? then ownQuery.value else "";
      PatchedTarget(rules, target, path, query) ==
      if path.None? && query.None? then target
      else
        match rules.readTarget(if nextQuery == "" then nextPath else nextPath + "?" + nextQuery)
        case None => target
        case Some(read) => read
  {
    if ownQuery.Some? {
      IndexAfter(own, '?', ownQuery.value);
      assert own + "?" + ownQuery.value == own + ['?'] + ownQuery.value;
    }
  }

  function PatchParts(rules: Rules, parts: Parts, patch: Patch): Parts {
    var headers := PatchHeaders(rules, parts.headers, patch.setHeaders, patch.removeHeaders);
    Parts(
      if patch.verb.Some? && rules.validVerb(patch.verb.value) then patch.verb.value else parts.verb,
      PatchedTarget(rules, parts.target, patch.path, patch.query),
      if patch.status.Some? && rules.validStatus(patch.status.value) then patch.status.value else parts.status,
      if patch.body.Some? then PatchBodyHeaders(rules, headers, patch.body.value.contentType) else headers,
      if patch.body.Some? then patch.body.value.bytes else parts.body)
  }

  /** The message being forwarded. */
  class LiveMessage {
    const rules: Rules
    var verb: string
    var target: string
    var status: U16
    var headers: HeaderMap
    var body: string

    constructor (rules: Rules, parts: Parts)
      ensures this.rules == rules && AsParts() == parts
    {
      this.rules := rules;
      verb, target, status, headers, body := parts.verb, parts.target, parts.status, parts.headers, parts.body;
    }

    ghost function AsParts(): Parts
      reads this
    {
      Parts(verb, target, status, headers, body)
    }

    method ApplyHeaderPatch(setHeaders: seq<Header>, removeHeaders: seq<string>)
      modifies `headers
      ensures headers == PatchHeaders(rules, old(headers), setHeaders, removeHeaders)
    {
      ghost var cleared := RemoveNames(rules, headers, removeHeaders);
      for i := 0 to |removeHeaders|
        invariant RemoveNames(rules, headers, removeHeaders[i..]) == cleared
      {
        if rules.validName(removeHeaders[i]) {
          headers := headers - {Lower(removeHeaders[i])};
        }
      }
      ghost var done := InsertHeaders(rules, cleared, setHeaders);
      for i := 0 to |setHeaders|
        invariant InsertHeaders(rules, headers, setHeaders[i..]) == done
      {
        var header := setHeaders[i];
        if !rules.validName(header.name) {
          continue;
        }
        if !rules.validValue(header.value) {
          continue;
        }
        headers := headers[Lower(header.name) := [header.value]];
      }
    }

    method RemoveBodyIntegrityHeaders()
      modifies `headers
      ensures headers == old(headers) - {"content-length", "content-encoding", "etag", "content-md5"}
    {
      headers := headers - {"content-length"};
      headers := headers - {"content-encoding"};
      headers := headers - {"etag"};
      headers := headers - {"content-md5"};
    }

    method ApplyTarget(path: Option<string>, query: Option<string>)
      modifies `target
      ensures target == PatchedTarget(rules, old(target), path, query)
    {
      if path.Some? || query.Some? {
        var split := SplitOnce(target, '?');
        var nextPath := path.GetOr(Before(target, '?'));
        var nextQuery := query.GetOr(if split.Some? then split.value.1 else "");
        var next := rules.readTarget(if nextQuery != "" then nextPath + "?" + nextQuery else nextPath);
        if next.Some? {
          target := next.value;
        }
      }
    }

    method ApplyPatch(patch: Patch)
      modifies this
      ensures AsParts() == PatchParts(rules, old(AsParts()), patch)
      ensures patch.body.Some? ==> body == patch.body.value.bytes
      ensures patch.body.Some? ==>
        && "content-length" !in headers && "content-encoding" !in headers
        && "etag" !in headers && "content-md5" !in headers
      ensures patch.body.Some? ==>
        DescribesNewBody(rules, headers, PatchHeaders(rules, old(headers), patch.setHeaders, patch.removeHeaders),
                         patch.body.value.contentType)
      ensures patch.body.None? ==>
        body == old(body) && headers == PatchHeaders(rules, old(headers), patch.setHeaders, patch.removeHeaders)
    {
      hide PatchedTarget, PatchHeaders;
      if patch.verb.Some? && rules.validVerb(patch.verb.value) {
        verb := patch.verb.value;
      }
      ApplyTarget(patch.path, patch.query);
      if patch.status.Some? && rules.validStatus(patch.status.value) {
        status := patch.status.value;
      }
      ApplyHeaderPatch(patch.setHeaders, patch.removeHeaders);
      if patch.body.Some? {
        body := patch.body.value.bytes;
        BodyHeadersDescribe(rules, headers, patch.body.value.contentType);
        IntegrityNames();
        RemoveBodyIntegrityHeaders();
        var contentType := patch.body.value.contentType;
        if contentType.Some? && rules.validValue(contentType.value) {
          headers := headers["content-type" := [contentType.value]];
        }
      }
    }
  }

  // ----- header maps of header lists

  function KeysOf(headers: seq<Header>): set<string> {
    set h | h in headers :: Lower(h.name)
  }

  function FromHeaders(headers: seq<Header>): HeaderMap {
    map k | k in KeysOf(headers) :: ValuesOf(headers, k)
  }

  predicate NoEmptyValues(h: HeaderMap) {
    forall k :: k in h ==> h[k] != []
  }

  lemma {:induction false} ValuesOfKey(headers: seq<Header>, key: string)
    ensures ValuesOf(headers, key) != [] <==> key in KeysOf(headers)
  {
    if headers != [] {
      ValuesOfKey(headers[1..], key);
      assert forall h :: h in headers <==> h == headers[0] || h in headers[1..];
    }
  }

  lemma FromHeadersAt(headers: seq<Header>, key: string)
    ensures At(FromHeaders(headers), key) == ValuesOf(headers, key)
    ensures NoEmptyValues(FromHeaders(headers))
  {
    forall k ensures ValuesOf(headers, k) != [] <==> k in KeysOf(headers) { ValuesOfKey(headers, k); }
  }

  lemma SameMap(a: HeaderMap, b: HeaderMap)
    requires NoEmptyValues(a) && NoEmptyValues(b)
    requires forall k :: At(a, k) == At(b, k)
    ensures a == b
  {
    forall k ensures k in a <==> k in b { assert At(a, k) == At(b, k); }
    forall k | k in a ensures a[k] == b[k] { assert At(a, k) == At(b, k); }
  }

  predicate AllValid(rules: Rules, headers: seq<Header>) {
    forall h :: h in headers ==> rules.validName(h.name) && rules.validValue(h.value)
  }

  // ----- what a patch does to one name

  lemma {:induction false} RemovedAt(rules: Rules, h: HeaderMap, headers: seq<Header>, key: string)
    requires forall x :: x in headers ==> rules.validName(x.name)
    ensures At(RemoveNames(rules, h, NamesOf(headers)), key) == if ValuesOf(headers, key) != [] then [] else At(h, key)
    ensures NoEmptyValues(h) ==> NoEmptyValues(RemoveNames(rules, h, NamesOf(headers)))
    decreases |headers|
  {
    if headers != [] {
      assert headers[0] in headers;
      assert NamesOf(headers)[1..] == NamesOf(headers[1..]);
      RemovedAt(rules, h - {Lower(headers[0].name)}, headers[1..], key);
    }
  }

  lemma {:induction false} InsertedAt(rules: Rules, h: HeaderMap, sets: seq<Header>, key: string)
    requires AllValid(rules, sets)
    ensures var vs := ValuesOf(sets, key);
      At(InsertHeaders(rules, h, sets), key) == if vs == [] then At(h, key) else [vs[|vs| - 1]]
    ensures NoEmptyValues(h) ==> NoEmptyValues(InsertHeaders(rules, h, sets))
    decreases |sets|
  {
    hide Lower;
    if sets != [] {
      var s := sets[0];
      assert s in sets;
      var next := h[Lower(s.name) := [s.value]];
      InsertedAt(rules, next, sets[1..], key);
      assert At(next, key) == if Lower(s.name) == key then [s.value] else At(h, key);
    }
  }

  // ----- what the generated patch contains for one name

  lemma {:induction false} ValuesOfConcat(a: seq<Header>, b: seq<Header>, key: string)
    ensures ValuesOf(a + b, key) == ValuesOf(a, key) + ValuesOf(b, key)
  {
    if a == [] {
      assert a + b == b;
    } else {
      assert (a + b)[1..] == a[1..] + b;
      ValuesOfConcat(a[1..], b, key);
    }
  }

  lemma {:induction false} ValuesOfMissing(these: seq<Header>, others: seq<Header>, key: string)
    ensures ValuesOf(Missing(these, others), key) == if ValuesOf(others, key) == [] then ValuesOf(these, key) else []
  {
    if these != [] {
      ValuesOfMissing(these[1..], others, key);
      var first := if HeaderValue(others, these[0].name).None? then [these[0]] else [];
      ValuesOfConcat(first, Missing(these[1..], others), key);
      assert first != [] ==> first[1..] == [];
    }
  }

  function NewHeaders(changes: seq<HeaderChange>): seq<Header> {
    seq(|changes|, i requires 0 <= i < |changes| => Header(changes[i].name, changes[i].editedValue))
  }

  predicate Differs(vs: seq<string>, x: string) {
    exists v :: v in vs && v != x
  }

  lemma DiffersConcat(a: seq<string>, b: seq<string>, x: string)
    ensures Differs(a + b, x) <==> Differs(a, x) || Differs(b, x)
  {
    if Differs(a, x) { var v :| v in a && v != x; assert v in a + b; }
    if Differs(b, x) { var v :| v in b && v != x; assert v in a + b; }
  }

  lemma ValuesOfChange(h: Header, edited: seq<Header>, key: string)
    ensures var after := ValuesOf(edited, key);
      ValuesOf(NewHeaders(ChangeOf(h, edited)), key) ==
      if Lower(h.name) == key && after != [] && h.value != after[0] then [after[0]] else []
  {
    var made := NewHeaders(ChangeOf(h, edited));
    assert made != [] ==> made[1..] == [];
  }

  lemma DiffersCons(h: Header, rest: seq<Header>, key: string, x: string)
    ensures Differs(ValuesOf([h] + rest, key), x) <==>
            (Lower(h.name) == key && h.value != x) || Differs(ValuesOf(rest, key), x)
  {
    ValuesOfConcat([h], rest, key);
    assert [h][1..] == [];
    var own := ValuesOf([h], key);
    assert own == if Lower(h.name) == key then [h.value] else [];
    DiffersConcat(own, ValuesOf(rest, key), x);
    if own != [] {
      assert h.value in own;
    }
  }

  /** A name is set by the changes when the edit keeps it and some old value differs from its first
      new value, and then to that value. */
  lemma {:induction false} ValuesOfChanged(original: seq<Header>, edited: seq<Header>, key: string)
    ensures var vs, after := ValuesOf(NewHeaders(Changed(original, edited)), key), ValuesOf(edited, key);
      && (vs != [] <==> after != [] && Differs(ValuesOf(original, key), after[0]))
      && (forall v :: v in vs ==> v == after[0])
  {
    hide ChangeOf, HeaderValue;
    if original != [] {
      var first, rest := ChangeOf(original[0], edited), Changed(original[1..], edited);
      ValuesOfChanged(original[1..], edited, key);
      assert NewHeaders(first + rest) == NewHeaders(first) + NewHeaders(rest);
      ValuesOfConcat(NewHeaders(first), NewHeaders(rest), key);
      ValuesOfChange(original[0], edited, key);
      if ValuesOf(edited, key) != [] {
        assert original == [original[0]] + original[1..];
        DiffersCons(original[0], original[1..], key, ValuesOf(edited, key)[0]);
      }
    }
  }

  /** What a name ends up with: the generated patch reaches the edit only up to the first value. */
  function Reached(before: seq<string>, after: seq<string>): seq<string> {
    if after == [] then []
    else if before == [] then [after[|after| - 1]]
    else if Differs(before, after[0]) then [after[0]]
    else before
  }

  lemma SetsAt(original: Message, edited: Message, key: string)
    ensures var vs := ValuesOf(SetsOf(DiffOf(original, edited)), key);
      var before, after := ValuesOf(original.headers, key), ValuesOf(edited.headers, key);
      && (after == [] ==> vs == [])
      && (after != [] && before == [] ==> vs == after)
      && (after != [] && before != [] ==> (vs != [] <==> Differs(before, after[0])))
      && (after != [] && before != [] && vs != [] ==> vs[|vs| - 1] == after[0])
  {
    hide ValuesOf, Missing, Changed;
    var diff := DiffOf(original, edited);
    assert SetsOf(diff) == NewHeaders(diff.changed) + diff.added;
    ValuesOfConcat(NewHeaders(diff.changed), diff.added, key);
    ValuesOfChanged(original.headers, edited.headers, key);
    ValuesOfMissing(edited.headers, original.headers, key);
    var vs := ValuesOf(NewHeaders(diff.changed), key);
    assert vs != [] ==> vs[|vs| - 1] in vs;
    assert vs + [] == vs;
  }

  lemma PatchedAt(rules: Rules, original: Message, edited: Message, key: string)
    requires AllValid(rules, original.headers) && AllValid(rules, edited.headers)
    ensures var diff := DiffOf(original, edited);
      var h := PatchHeaders(rules, FromHeaders(original.headers), SetsOf(diff), NamesOf(diff.removed));
      At(h, key) == Reached(ValuesOf(original.headers, key), ValuesOf(edited.headers, key)) && NoEmptyValues(h)
  {
    hide ValuesOf, Missing, Changed, FromHeaders, RemoveNames, InsertHeaders, Differs, AllValid, NamesOf, At;
    hide NoEmptyValues;
    var diff := DiffOf(original, edited);
    var o, e := original.headers, edited.headers;
    ValidParts(rules, o, e);
    FromHeadersAt(o, key);
    RemovedAt(rules, FromHeaders(o), diff.removed, key);
    ValuesOfMissing(o, e, key);
    assert SetsOf(diff) == NewHeaders(diff.changed) + diff.added;
    InsertedAt(rules, RemoveNames(rules, FromHeaders(o), NamesOf(diff.removed)), SetsOf(diff), key);
    SetsAt(original, edited, key);
  }

  lemma {:induction false} FirstValueIsThere(headers: seq<Header>, name: string)
    requires HeaderValue(headers, name).Some?
    ensures exists h :: h in headers && h.value == HeaderValue(headers, name).value
  {
    if EqIgnoreCase(headers[0].name, name) {
      assert headers[0] in headers;
    } else {
      FirstValueIsThere(headers[1..], name);
      var h :| h in headers[1..] && h.value == HeaderValue(headers, name).value;
      assert h in headers;
    }
  }

  lemma {:induction false} ValidMissing(rules: Rules, these: seq<Header>, others: seq<Header>)
    requires AllValid(rules, these)
    ensures AllValid(rules, Missing(these, others))
  {
    if these != [] {
      assert these[0] in these;
      ValidMissing(rules, these[1..], others);
    }
  }

  lemma {:induction false} ValidChanged(rules: Rules, original: seq<Header>, edited: seq<Header>)
    requires AllValid(rules, original) && AllValid(rules, edited)
    ensures AllValid(rules, NewHeaders(Changed(original, edited)))
  {
    hide HeaderValue, ChangeOf;
    if original != [] {
      assert original[0] in original;
      ValidChanged(rules, original[1..], edited);
      ValidChange(rules, original[0], edited);
      var first, rest := ChangeOf(original[0], edited), Changed(original[1..], edited);
      assert NewHeaders(first + rest) == NewHeaders(first) + NewHeaders(rest);
    }
  }

  lemma ValidChange(rules: Rules, h: Header, edited: seq<Header>)
    requires rules.validName(h.name) && AllValid(rules, edited)
    ensures AllValid(rules, NewHeaders(ChangeOf(h, edited)))
  {
    if HeaderValue(edited, h.name).Some? {
      FirstValueIsThere(edited, h.name);
    }
  }

  lemma ValidParts(rules: Rules, o: seq<Header>, e: seq<Header>)
    requires AllValid(rules, o) && AllValid(rules, e)
    ensures AllValid(rules, NewHeaders(Changed(o, e)) + Missing(e, o)) && AllValid(rules, Missing(o, e))
  {
    ValidChanged(rules, o, e);
    ValidMissing(rules, e, o);
    ValidMissing(rules, o, e);
  }

  // ----- when the edit takes effect

  /** A name whose old values all equal its first new value must keep its old values; any other
      name must have a single new value. */
  predicate IsReachableName(before: seq<string>, after: seq<string>)
    requires after != []
  {
    if before != [] && !Differs(before, after[0]) then after == before else |after| == 1
  }

  /** Whether the generated patch can reach the edited headers. */
  predicate IsReachable(original: seq<Header>, edited: seq<Header>) {
    forall k :: k in KeysOf(edited) && ValuesOf(edited, k) != [] ==>
                  IsReachableName(ValuesOf(original, k), ValuesOf(edited, k))
  }

  predicate UniqueNames(headers: seq<Header>) {
    forall i, j :: 0 <= i < j < |headers| ==> Lower(headers[i].name) != Lower(headers[j].name)
  }

  ghost predicate ReachesAll(o: seq<Header>, e: seq<Header>) {
    forall k :: Reached(ValuesOf(o, k), ValuesOf(e, k)) == ValuesOf(e, k)
  }

  lemma ReachedIsEdited(o: seq<Header>, e: seq<Header>)
    ensures IsReachable(o, e) <==> ReachesAll(o, e)
  {
    forall k ensures ValuesOf(e, k) != [] <==> k in KeysOf(e) { ValuesOfKey(e, k); }
    if IsReachable(o, e) {
      forall k ensures Reached(ValuesOf(o, k), ValuesOf(e, k)) == ValuesOf(e, k) {
        var before, after := ValuesOf(o, k), ValuesOf(e, k);
        if after != [] {
          assert IsReachableName(before, after);
          assert |after| == 1 ==> after == [after[0]];
        }
      }
    }
    if ReachesAll(o, e) {
      forall k | k in KeysOf(e) && ValuesOf(e, k) != [] ensures IsReachableName(ValuesOf(o, k), ValuesOf(e, k)) {
        assert Reached(ValuesOf(o, k), ValuesOf(e, k)) == ValuesOf(e, k);
      }
    }
  }

  /** The header edit takes effect exactly when it is reachable. */
  lemma HeaderEditTakesEffect(rules: Rules, original: Message, edited: Message)
    requires AllValid(rules, original.headers) && AllValid(rules, edited.headers)
    ensures var diff := DiffOf(original, edited);
      var h := PatchHeaders(rules, FromHeaders(original.headers), SetsOf(diff), NamesOf(diff.removed));
      h == FromHeaders(edited.headers) <==> IsReachable(original.headers, edited.headers)
  {
    var diff := DiffOf(original, edited);
    var h := PatchHeaders(rules, FromHeaders(original.headers), SetsOf(diff), NamesOf(diff.removed));
    forall k
      ensures At(h, k) == Reached(ValuesOf(original.headers, k), ValuesOf(edited.headers, k)) && NoEmptyValues(h)
      ensures At(FromHeaders(edited.headers), k) == ValuesOf(edited.headers, k)
      ensures NoEmptyValues(FromHeaders(edited.headers))
    {
      PatchedAt(rules, original, edited, k);
      FromHeadersAt(edited.headers, k);
    }
    ReachedIsEdited(original.headers, edited.headers);
    if IsReachable(original.headers, edited.headers) {
      SameMap(h, FromHeaders(edited.headers));
    }
  }

  lemma {:induction false} UniqueValues(headers: seq<Header>, key: string)
    requires UniqueNames(headers)
    ensures |ValuesOf(headers, key)| <= 1
  {
    if headers != [] {
      UniqueValues(headers[1..], key);
      if Lower(headers[0].name) == key {
        ValuesOfKey(headers[1..], key);
        forall i | 0 <= i < |headers[1..]| ensures Lower(headers[1..][i].name) != key {
          assert headers[1..][i] == headers[i + 1];
        }
      }
    }
  }

  /** With case-insensitively unique names every edit is reachable. */
  lemma UniqueIsReachable(original: seq<Header>, edited: seq<Header>)
    requires UniqueNames(original) && UniqueNames(edited)
    ensures IsReachable(original, edited)
  {
    forall k | k in KeysOf(edited) && ValuesOf(edited, k) != []
      ensures IsReachableName(ValuesOf(original, k), ValuesOf(edited, k))
    {
      UniqueValues(original, k);
      UniqueValues(edited, k);
      var before, after := ValuesOf(original, k), ValuesOf(edited, k);
      if before != [] { assert before[0] in before; }
    }
  }

  /** A second cookie added by hand is lost: only one value per name survives the patch. */
  lemma AddedDuplicateIsLost(original: Message, edited: Message)
    requires original.headers == [Header("set-cookie", "a")]
    requires edited.headers == [Header("set-cookie", "a"), Header("set-cookie", "b")]
    ensures !IsReachable(original.headers, edited.headers)
  {
    var e := edited.headers;
    assert e[0] in e;
    assert e[1..] == [Header("set-cookie", "b")] && e[1..][1..] == [];
    assert original.headers[1..] == [];
    assert ValuesOf(original.headers, Lower("set-cookie")) == ["a"];
    assert ValuesOf(e, Lower("set-cookie")) == ["a", "b"];
    assert Lower("set-cookie") in KeysOf(e);
  }
}
