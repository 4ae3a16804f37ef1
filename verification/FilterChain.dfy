/** Running the filters that match (src/mitm/flow/filter_runtime.rs) and merging what they answer
    (src/mitm/flow/filter_bridge.rs). */
module FilterChain {
  import opened Wrappers
  import opened HeaderPatch
  import opened Triggers
  import opened Generator
  import opened FilterOrder

  // ----- which filters run

  ghost function Selected(fs: seq<CompiledFilter>, matches: CompiledFilter -> bool): seq<CompiledFilter> {
    if fs == [] then [] else (if matches(fs[0]) then [fs[0]] else []) + Selected(fs[1..], matches)
  }

  /** The filters that run: all up to and including the first one that stops the chain. */
  ghost function Ran<A>(
      matching: seq<CompiledFilter>, answer: CompiledFilter -> Option<A>, stops: A -> bool): seq<CompiledFilter>
  {
    if matching == [] then []
    else if answer(matching[0]).Some? && stops(answer(matching[0]).value) then [matching[0]]
    else [matching[0]] + Ran(matching[1..], answer, stops)
  }

  /** The answers of the filters that gave one. */
  ghost function Answers<A>(ran: seq<CompiledFilter>, answer: CompiledFilter -> Option<A>): seq<A> {
    if ran == [] then []
    else
      var last := answer(ran[|ran| - 1]);
      Answers(ran[..|ran| - 1], answer) + (if last.Some? then [last.value] else [])
  }

  ghost predicate Stopped<A>(f: CompiledFilter, answer: CompiledFilter -> Option<A>, stops: A -> bool) {
    answer(f).Some? && stops(answer(f).value)
  }

  /** Filters run in the order given, none before the last stops the chain, and if one was left out
      then because the last one did. */
  ghost predicate RunsUntilStopped<A>(
      matching: seq<CompiledFilter>, ran: seq<CompiledFilter>, answer: CompiledFilter -> Option<A>, stops: A -> bool)
  {
    && ran <= matching
    && (forall i :: 0 <= i < |ran| - 1 ==> !Stopped(ran[i], answer, stops))
    && (ran == matching || (ran != [] && Stopped(ran[|ran| - 1], answer, stops)))
  }

  lemma {:induction false} RanIsExact<A>(
      matching: seq<CompiledFilter>, ran: seq<CompiledFilter>, answer: CompiledFilter -> Option<A>, stops: A -> bool)
    ensures RunsUntilStopped(matching, ran, answer, stops) <==> ran == Ran(matching, answer, stops)
  {
    if matching != [] {
      var f := matching[0];
      assert matching == [f] + matching[1..];
      if ran != [] {
        assert ran == [ran[0]] + ran[1..];
        RanIsExact(matching[1..], ran[1..], answer, stops);
      }
      RanIsExact(matching[1..], Ran(matching[1..], answer, stops), answer, stops);
      RanFirst(matching, ran, answer, stops);
    }
  }

  lemma RanFirst<A>(
      matching: seq<CompiledFilter>, ran: seq<CompiledFilter>, answer: CompiledFilter -> Option<A>, stops: A -> bool)
    requires matching != []
    ensures RunsUntilStopped(matching, ran, answer, stops) <==>
      && ran != [] && ran[0] == matching[0]
      && if Stopped(matching[0], answer, stops) then ran == [matching[0]]
         else RunsUntilStopped(matching[1..], ran[1..], answer, stops)
  {
    if ran != [] {
      var tail := ran[1..];
      assert ran == [ran[0]] + tail && matching == [matching[0]] + matching[1..];
      assert forall i :: 0 <= i < |tail| ==> tail[i] == ran[i + 1];
      assert forall i :: 0 < i < |ran| ==> ran[i] == tail[i - 1];
    }
  }

  /** What has run so far, and what is still to come from the i-th filter on. */
  ghost predicate HasRun<A>(
      fs: seq<CompiledFilter>, i: nat, ran: seq<CompiledFilter>,
      matches: CompiledFilter -> bool, answer: CompiledFilter -> Option<A>, stops: A -> bool)
    requires i <= |fs|
  {
    Ran(Selected(fs, matches), answer, stops) == ran + Ran(Selected(fs[i..], matches), answer, stops)
  }

  lemma RanMore<A>(
      all: seq<CompiledFilter>, ran: seq<CompiledFilter>, f: CompiledFilter, rest: seq<CompiledFilter>,
      answer: CompiledFilter -> Option<A>, stops: A -> bool)
    requires Ran(all, answer, stops) == ran + Ran([f] + rest, answer, stops)
    ensures Stopped(f, answer, stops) ==> Ran(all, answer, stops) == ran + [f]
    ensures !Stopped(f, answer, stops) ==> Ran(all, answer, stops) == ran + [f] + Ran(rest, answer, stops)
  {
    assert ([f] + rest)[1..] == rest;
    assert ran + ([f] + Ran(rest, answer, stops)) == ran + [f] + Ran(rest, answer, stops);
  }

  lemma SelectedFrom(fs: seq<CompiledFilter>, i: nat, matches: CompiledFilter -> bool)
    requires i < |fs|
    ensures Selected(fs[i..], matches)
         == if matches(fs[i]) then [fs[i]] + Selected(fs[i + 1..], matches) else Selected(fs[i + 1..], matches)
  {
    assert fs[i..][1..] == fs[i + 1..];
  }

  lemma RunStep<A>(
      fs: seq<CompiledFilter>, i: nat, ran: seq<CompiledFilter>,
      matches: CompiledFilter -> bool, answer: CompiledFilter -> Option<A>, stops: A -> bool)
    requires i < |fs| && HasRun(fs, i, ran, matches, answer, stops)
    ensures !matches(fs[i]) ==> HasRun(fs, i + 1, ran, matches, answer, stops)
    ensures matches(fs[i]) && !Stopped(fs[i], answer, stops) ==>
      HasRun(fs, i + 1, ran + [fs[i]], matches, answer, stops)
    ensures matches(fs[i]) && Stopped(fs[i], answer, stops) ==>
      ran + [fs[i]] == Ran(Selected(fs, matches), answer, stops)
  {
    SelectedFrom(fs, i, matches);
    if matches(fs[i]) {
      RanMore(Selected(fs, matches), ran, fs[i], Selected(fs[i + 1..], matches), answer, stops);
    }
  }

  lemma RunStarts<A>(
      fs: seq<CompiledFilter>, matches: CompiledFilter -> bool, answer: CompiledFilter -> Option<A>, stops: A -> bool)
    ensures HasRun(fs, 0, [], matches, answer, stops) && Answers([], answer) == []
  {
    assert fs[0..] == fs;
  }

  lemma RunEnds<A>(
      fs: seq<CompiledFilter>, ran: seq<CompiledFilter>,
      matches: CompiledFilter -> bool, answer: CompiledFilter -> Option<A>, stops: A -> bool)
    requires HasRun(fs, |fs|, ran, matches, answer, stops)
    ensures ran == Ran(Selected(fs, matches), answer, stops)
  {
    assert fs[|fs|..] == [] && ran + [] == ran;
  }

  lemma AnswersSnoc<A>(ran: seq<CompiledFilter>, f: CompiledFilter, answer: CompiledFilter -> Option<A>)
    ensures answer(f).None? ==> Answers(ran + [f], answer) == Answers(ran, answer)
    ensures answer(f).Some? ==> Answers(ran + [f], answer) == Answers(ran, answer) + [answer(f).value]
  {
    assert (ran + [f])[..|ran|] == ran;
  }

  /** Only the last answer can be one that stops the chain. */
  ghost predicate OnlyLastStops<A>(answers: seq<A>, stops: A -> bool) {
    forall i :: 0 <= i < |answers| - 1 ==> !stops(answers[i])
  }

  lemma {:induction false} AnswersOfRunners<A>(
      ran: seq<CompiledFilter>, answer: CompiledFilter -> Option<A>, stops: A -> bool)
    requires forall i :: 0 <= i < |ran| ==> !Stopped(ran[i], answer, stops)
    ensures forall i :: 0 <= i < |Answers(ran, answer)| ==> !stops(Answers(ran, answer)[i])
  {
    if ran != [] {
      assert !Stopped(ran[|ran| - 1], answer, stops);
      AnswersOfRunners(ran[..|ran| - 1], answer, stops);
    }
  }

  lemma StopComesLast<A>(
      matching: seq<CompiledFilter>, ran: seq<CompiledFilter>, answer: CompiledFilter -> Option<A>, stops: A -> bool)
    requires RunsUntilStopped(matching, ran, answer, stops)
    ensures OnlyLastStops(Answers(ran, answer), stops)
  {
    if ran != [] {
      AnswersOfRunners(ran[..|ran| - 1], answer, stops);
    }
  }

  /** Filters run by priority and path, and a matching one that did not run comes no earlier than the
      one that stopped the chain. */
  lemma RunsInOrder<A>(
      fs: seq<CompiledFilter>, ran: seq<CompiledFilter>,
      matches: CompiledFilter -> bool, answer: CompiledFilter -> Option<A>, stops: A -> bool)
    requires IsSorted(fs) && RunsUntilStopped(Selected(fs, matches), ran, answer, stops)
    ensures IsSorted(ran) && forall i, j :: 0 <= i < j < |ran| ==> ran[i].priority <= ran[j].priority
    ensures forall f :: f in fs && matches(f) && f !in ran ==>
      && ran != [] && Stopped(ran[|ran| - 1], answer, stops)
      && ran[|ran| - 1].priority <= f.priority && !Before(f.SortKey(), ran[|ran| - 1].SortKey())
  {
    SelectedIsSorted(fs, matches);
    SortedIsAscending(ran);
    var all := Selected(fs, matches);
    forall f | f in fs && matches(f) && f !in ran
      ensures && ran != [] && Stopped(ran[|ran| - 1], answer, stops)
              && ran[|ran| - 1].priority <= f.priority && !Before(f.SortKey(), ran[|ran| - 1].SortKey())
    {
      SelectedMembers(fs, matches, f);
      var j :| 0 <= j < |all| && all[j] == f;
      assert j >= |ran|;
      assert ran[|ran| - 1] == all[|ran| - 1];
      KeyOrder(f.SortKey(), ran[|ran| - 1].SortKey());
    }
  }

  lemma {:induction false} SelectedMembers(fs: seq<CompiledFilter>, matches: CompiledFilter -> bool, f: CompiledFilter)
    ensures f in Selected(fs, matches) <==> f in fs && matches(f)
  {
    if fs != [] {
      assert fs == [fs[0]] + fs[1..];
      SelectedMembers(fs[1..], matches, f);
    }
  }

  lemma {:induction false} SelectedIsSorted(fs: seq<CompiledFilter>, matches: CompiledFilter -> bool)
    requires IsSorted(fs)
    ensures IsSorted(Selected(fs, matches))
  {
    if fs != [] {
      SelectedIsSorted(fs[1..], matches);
      var rest := Selected(fs[1..], matches);
      forall j | 0 <= j < |rest| ensures !Before(rest[j].SortKey(), fs[0].SortKey()) {
        SelectedMembers(fs[1..], matches, rest[j]);
        var k :| 0 <= k < |fs[1..]| && fs[1..][k] == rest[j];
        assert fs[k + 1] == rest[j];
      }
    }
  }

  // ----- what the answers add up to

  const NO_EXTRAS := Extras([], [], [], [])

  /** The last value there is. */
  ghost predicate IsLatest<T>(r: Option<T>, xs: seq<Option<T>>) {
    match r
    case None => forall i :: 0 <= i < |xs| ==> xs[i].None?
    case Some(_) => exists i :: 0 <= i < |xs| && xs[i] == r && forall j :: i < j < |xs| ==> xs[j].None?
  }

  lemma LatestSnoc<T>(r: Option<T>, xs: seq<Option<T>>, x: Option<T>)
    requires IsLatest(r, xs)
    ensures IsLatest(if x.Some? then x else r, xs + [x])
  {
    if x.Some? {
      assert (xs + [x])[|xs|] == x;
    } else if r.Some? {
      var i :| 0 <= i < |xs| && xs[i] == r && forall j :: i < j < |xs| ==> xs[j].None?;
      assert (xs + [x])[i] == r;
    }
  }

  // ----- requests

  ghost function OnRequest(req: FilterRequest): CompiledFilter -> Option<RequestAction> {
    (f: CompiledFilter) => match f.onRequest(req) case Ok(action) => Some(action) case Err(_) => None
  }

  ghost function MatchesPhase(phase: Phase, req: RequestView): CompiledFilter -> bool {
    (f: CompiledFilter) => f.trigger.Matches(phase, req)
  }

  ghost function RequestStops(): RequestAction -> bool {
    (action: RequestAction) => action.synthetic.Some? || !action.continueFilters
  }

  const REQUEST_PASS := RequestAction(None, None, NO_EXTRAS, true, false, false)

  function MergedRequest(dst: RequestAction, src: RequestAction): RequestAction {
    RequestAction(
      if src.patch.Some? then src.patch else dst.patch,
      if src.synthetic.Some? then src.synthetic else dst.synthetic,
      dst.extras.Then(src.extras),
      src.synthetic.None? && src.continueFilters,
      dst.dropClientResponse || src.dropClientResponse,
      dst.bypassUpstreamProxy)
  }

  class CombinedRequestAction {
    var patch: Option<Patch>
    var synthetic: Option<SyntheticResponse>
    var extras: Extras
    var continueFilters: bool
    var dropClientResponse: bool
    var bypassUpstreamProxy: bool

    function Value(): RequestAction
      reads this
    {
      RequestAction(patch, synthetic, extras, continueFilters, dropClientResponse, bypassUpstreamProxy)
    }

    constructor Pass()
      ensures Value() == REQUEST_PASS
    {
      patch, synthetic, extras := None, None, NO_EXTRAS;
      continueFilters, dropClientResponse, bypassUpstreamProxy := true, false, false;
    }

    method Merge(src: RequestAction)
      modifies this
      ensures Value() == MergedRequest(old(Value()), src)
      ensures continueFilters <==> src.synthetic.None? && src.continueFilters
    {
      if src.patch.Some? {
        patch := src.patch;
      }
      if src.synthetic.Some? {
        synthetic := src.synthetic;
        continueFilters := false;
      } else {
        continueFilters := src.continueFilters;
      }
      dropClientResponse := dropClientResponse || src.dropClientResponse;
      extras := extras.Then(src.extras);
    }
  }

  function RequestPatches(actions: seq<RequestAction>): (r: seq<Option<Patch>>)
    ensures |r| == |actions| && forall i :: 0 <= i < |r| ==> r[i] == actions[i].patch
  {
    seq(|actions|, i requires 0 <= i < |actions| => actions[i].patch)
  }

  function RequestExtras(actions: seq<RequestAction>): Extras {
    if actions == [] then NO_EXTRAS
    else RequestExtras(actions[..|actions| - 1]).Then(actions[|actions| - 1].extras)
  }

  /** The combined action holds every mark, tag, note and job in order, the last patch, and the
      synthetic response of the last answer; it drops the response if any answer does. The wish to
      bypass the upstream proxy is never carried over. */
  ghost predicate SumsUpRequests(c: RequestAction, actions: seq<RequestAction>) {
    && IsLatest(c.patch, RequestPatches(actions))
    && c.synthetic == (if actions == [] then None else actions[|actions| - 1].synthetic)
    && c.extras == RequestExtras(actions)
    && (c.continueFilters <==> actions == [] || !RequestStops()(actions[|actions| - 1]))
    && (c.dropClientResponse <==> exists i :: 0 <= i < |actions| && actions[i].dropClientResponse)
    && !c.bypassUpstreamProxy
  }

  /** Merging one more answer, when none before stopped the chain. */
  lemma MergeSumsUpRequests(c: RequestAction, actions: seq<RequestAction>, src: RequestAction)
    requires SumsUpRequests(c, actions) && c.continueFilters
    ensures SumsUpRequests(MergedRequest(c, src), actions + [src])
  {
    var more := actions + [src];
    assert more[..|actions|] == actions && more[|actions|] == src;
    LatestSnoc(c.patch, RequestPatches(actions), src.patch);
    assert RequestPatches(more) == RequestPatches(actions) + [src.patch];
    if c.dropClientResponse {
      var i :| 0 <= i < |actions| && actions[i].dropClientResponse;
      assert more[i].dropClientResponse;
    }
  }

  /** The answers merged one by one into the empty action. */
  function RequestFold(actions: seq<RequestAction>): RequestAction {
    if actions == [] then REQUEST_PASS
    else MergedRequest(RequestFold(actions[..|actions| - 1]), actions[|actions| - 1])
  }

  lemma RequestFoldSnoc(actions: seq<RequestAction>, src: RequestAction)
    ensures RequestFold(actions + [src]) == MergedRequest(RequestFold(actions), src)
  {
    assert (actions + [src])[..|actions|] == actions;
  }

  lemma {:induction false} RequestFoldSumsUp(actions: seq<RequestAction>)
    requires OnlyLastStops(actions, RequestStops())
    ensures SumsUpRequests(RequestFold(actions), actions)
  {
    if actions != [] {
      var init, last := actions[..|actions| - 1], actions[|actions| - 1];
      RequestFoldSumsUp(init);
      MergeSumsUpRequests(RequestFold(init), init, last);
      assert actions == init + [last];
    }
  }

  /** What running the request filters amounts to. */
  lemma RequestsSumUp(
      matching: seq<CompiledFilter>, ran: seq<CompiledFilter>, answer: CompiledFilter -> Option<RequestAction>)
    requires ran == Ran(matching, answer, RequestStops())
    ensures RunsUntilStopped(matching, ran, answer, RequestStops())
    ensures SumsUpRequests(RequestFold(Answers(ran, answer)), Answers(ran, answer))
  {
    RanIsExact(matching, ran, answer, RequestStops());
    StopComesLast(matching, ran, answer, RequestStops());
    RequestFoldSumsUp(Answers(ran, answer));
  }

  /** One filter more: what has run and what the answers fold to. */
  lemma RequestStep(fs: seq<CompiledFilter>, i: nat, ran: seq<CompiledFilter>, view: RequestView, req: FilterRequest)
    requires i < |fs| && HasRun(fs, i, ran, MatchesPhase(RequestPhase, view), OnRequest(req), RequestStops())
    ensures !fs[i].trigger.Matches(RequestPhase, view) ==>
      HasRun(fs, i + 1, ran, MatchesPhase(RequestPhase, view), OnRequest(req), RequestStops())
    ensures fs[i].trigger.Matches(RequestPhase, view) && fs[i].onRequest(req).Err? ==>
      && HasRun(fs, i + 1, ran + [fs[i]], MatchesPhase(RequestPhase, view), OnRequest(req), RequestStops())
      && RequestFold(Answers(ran + [fs[i]], OnRequest(req))) == RequestFold(Answers(ran, OnRequest(req)))
    ensures fs[i].trigger.Matches(RequestPhase, view) && fs[i].onRequest(req).Ok? ==>
      && RequestFold(Answers(ran + [fs[i]], OnRequest(req))) ==
         MergedRequest(RequestFold(Answers(ran, OnRequest(req))), fs[i].onRequest(req).value)
      && if fs[i].onRequest(req).value.synthetic.None? && fs[i].onRequest(req).value.continueFilters
         then HasRun(fs, i + 1, ran + [fs[i]], MatchesPhase(RequestPhase, view), OnRequest(req), RequestStops())
         else ran + [fs[i]] == Ran(Selected(fs, MatchesPhase(RequestPhase, view)), OnRequest(req), RequestStops())
  {
    hide HasRun, Ran, Selected, Answers, RequestFold, MergedRequest, MatchesAnyGlob;
    RunStep(fs, i, ran, MatchesPhase(RequestPhase, view), OnRequest(req), RequestStops());
    AnswersSnoc(ran, fs[i], OnRequest(req));
    if OnRequest(req)(fs[i]).Some? {
      RequestFoldSnoc(Answers(ran, OnRequest(req)), OnRequest(req)(fs[i]).value);
    }
  }

  /** The filters whose trigger matches are run in order until one stops the chain; one that fails is
      skipped. */
  method RunRequestFilters(loaded: CompiledFilterSet, view: RequestView, req: FilterRequest)
    returns (combined: RequestAction, ran: seq<CompiledFilter>)
    ensures ran == Ran(Selected(loaded.filters, MatchesPhase(RequestPhase, view)), OnRequest(req), RequestStops())
    ensures combined == RequestFold(Answers(ran, OnRequest(req)))
  {
    var fs := loaded.filters;
    var dst := new CombinedRequestAction.Pass();
    ran := [];
    ghost var matches, answer, stops := MatchesPhase(RequestPhase, view), OnRequest(req), RequestStops();
    RunStarts(fs, matches, answer, stops);
    hide HasRun, Ran, Selected, Answers, MergedRequest, MatchesAnyGlob, RequestFold;
    for i := 0 to |fs|
      invariant HasRun(fs, i, ran, matches, answer, stops)
      invariant dst.Value() == RequestFold(Answers(ran, answer))
    {
      RequestStep(fs, i, ran, view, req);
      var matched := fs[i].trigger.Match(RequestPhase, view);
      if !matched {
        continue;
      }
      ran := ran + [fs[i]];
      match fs[i].onRequest(req) {
        case Ok(action) =>
          dst.Merge(action);
          if !dst.continueFilters {
            return dst.Value(), ran;
          }
        case Err(_) =>
      }
    }
    combined := dst.Value();
    RunEnds(fs, ran, matches, answer, stops);
  }

  // ----- responses

  ghost function OnResponse(req: FilterRequest, res: FilterResponse): CompiledFilter -> Option<ResponseAction> {
    (f: CompiledFilter) => match f.onResponse(req, res) case Ok(action) => Some(action) case Err(_) => None
  }

  ghost function ResponseStops(): ResponseAction -> bool {
    (action: ResponseAction) => !action.continueFilters
  }

  const RESPONSE_PASS := ResponseAction(None, NO_EXTRAS, true, false)

  function MergedResponse(dst: ResponseAction, src: ResponseAction): ResponseAction {
    ResponseAction(
      if src.patch.Some? then src.patch else dst.patch,
      dst.extras.Then(src.extras),
      src.continueFilters,
      dst.dropClientResponse || src.dropClientResponse)
  }

  class CombinedResponseAction {
    var patch: Option<Patch>
    var extras: Extras
    var continueFilters: bool
    var dropClientResponse: bool

    function Value(): ResponseAction
      reads this
    {
      ResponseAction(patch, extras, continueFilters, dropClientResponse)
    }

    constructor Pass()
      ensures Value() == RESPONSE_PASS
    {
      patch, extras, continueFilters, dropClientResponse := None, NO_EXTRAS, true, false;
    }

    method Merge(src: ResponseAction)
      modifies this
      ensures Value() == MergedResponse(old(Value()), src) && continueFilters == src.continueFilters
    {
      if src.patch.Some? {
        patch := src.patch;
      }
      extras := extras.Then(src.extras);
      continueFilters := src.continueFilters;
      dropClientResponse := dropClientResponse || src.dropClientResponse;
    }
  }

  function ResponsePatches(actions: seq<ResponseAction>): (r: seq<Option<Patch>>)
    ensures |r| == |actions| && forall i :: 0 <= i < |r| ==> r[i] == actions[i].patch
  {
    seq(|actions|, i requires 0 <= i < |actions| => actions[i].patch)
  }

  function ResponseExtras(actions: seq<ResponseAction>): Extras {
    if actions == [] then NO_EXTRAS
    else ResponseExtras(actions[..|actions| - 1]).Then(actions[|actions| - 1].extras)
  }

  ghost predicate SumsUpResponses(c: ResponseAction, actions: seq<ResponseAction>) {
    && IsLatest(c.patch, ResponsePatches(actions))
    && c.extras == ResponseExtras(actions)
    && (c.continueFilters <==> actions == [] || !ResponseStops()(actions[|actions| - 1]))
    && (c.dropClientResponse <==> exists i :: 0 <= i < |actions| && actions[i].dropClientResponse)
  }

  lemma MergeSumsUpResponses(c: ResponseAction, actions: seq<ResponseAction>, src: ResponseAction)
    requires SumsUpResponses(c, actions)
    ensures SumsUpResponses(MergedResponse(c, src), actions + [src])
  {
    var more := actions + [src];
    assert more[..|actions|] == actions && more[|actions|] == src;
    LatestSnoc(c.patch, ResponsePatches(actions), src.patch);
    assert ResponsePatches(more) == ResponsePatches(actions) + [src.patch];
    if c.dropClientResponse {
      var i :| 0 <= i < |actions| && actions[i].dropClientResponse;
      assert more[i].dropClientResponse;
    }
  }

  /** The answers merged one by one into the empty action. */
  function ResponseFold(actions: seq<ResponseAction>): ResponseAction {
    if actions == [] then RESPONSE_PASS
    else MergedResponse(ResponseFold(actions[..|actions| - 1]), actions[|actions| - 1])
  }

  lemma ResponseFoldSnoc(actions: seq<ResponseAction>, src: ResponseAction)
    ensures ResponseFold(actions + [src]) == MergedResponse(ResponseFold(actions), src)
  {
    assert (actions + [src])[..|actions|] == actions;
  }

  lemma {:induction false} ResponseFoldSumsUp(actions: seq<ResponseAction>)
    ensures SumsUpResponses(ResponseFold(actions), actions)
  {
    if actions != [] {
      var init, last := actions[..|actions| - 1], actions[|actions| - 1];
      ResponseFoldSumsUp(init);
      MergeSumsUpResponses(ResponseFold(init), init, last);
      assert actions == init + [last];
    }
  }

  /** One filter more: what has run and what the answers fold to. */
  lemma ResponseStep(
      fs: seq<CompiledFilter>, i: nat, ran: seq<CompiledFilter>,
      view: RequestView, req: FilterRequest, res: FilterResponse)
    requires i < |fs| && HasRun(fs, i, ran, MatchesPhase(ResponsePhase, view), OnResponse(req, res), ResponseStops())
    ensures !fs[i].trigger.Matches(ResponsePhase, view) ==>
      HasRun(fs, i + 1, ran, MatchesPhase(ResponsePhase, view), OnResponse(req, res), ResponseStops())
    ensures fs[i].trigger.Matches(ResponsePhase, view) && fs[i].onResponse(req, res).Err? ==>
      && HasRun(fs, i + 1, ran + [fs[i]], MatchesPhase(ResponsePhase, view), OnResponse(req, res), ResponseStops())
      && ResponseFold(Answers(ran + [fs[i]], OnResponse(req, res))) == ResponseFold(Answers(ran, OnResponse(req, res)))
    ensures fs[i].trigger.Matches(ResponsePhase, view) && fs[i].onResponse(req, res).Ok? ==>
      && ResponseFold(Answers(ran + [fs[i]], OnResponse(req, res))) ==
         MergedResponse(ResponseFold(Answers(ran, OnResponse(req, res))), fs[i].onResponse(req, res).value)
      && if fs[i].onResponse(req, res).value.continueFilters
         then HasRun(fs, i + 1, ran + [fs[i]], MatchesPhase(ResponsePhase, view), OnResponse(req, res), ResponseStops())
         else ran + [fs[i]] ==
              Ran(Selected(fs, MatchesPhase(ResponsePhase, view)), OnResponse(req, res), ResponseStops())
  {
    hide HasRun, Ran, Selected, Answers, ResponseFold, MergedResponse, MatchesAnyGlob;
    RunStep(fs, i, ran, MatchesPhase(ResponsePhase, view), OnResponse(req, res), ResponseStops());
    AnswersSnoc(ran, fs[i], OnResponse(req, res));
    if OnResponse(req, res)(fs[i]).Some? {
      ResponseFoldSnoc(Answers(ran, OnResponse(req, res)), OnResponse(req, res)(fs[i]).value);
    }
  }

  /** What running the response filters amounts to. */
  lemma ResponsesSumUp(
      matching: seq<CompiledFilter>, ran: seq<CompiledFilter>, answer: CompiledFilter -> Option<ResponseAction>)
    requires ran == Ran(matching, answer, ResponseStops())
    ensures RunsUntilStopped(matching, ran, answer, ResponseStops())
    ensures SumsUpResponses(ResponseFold(Answers(ran, answer)), Answers(ran, answer))
  {
    RanIsExact(matching, ran, answer, ResponseStops());
    StopComesLast(matching, ran, answer, ResponseStops());
    ResponseFoldSumsUp(Answers(ran, answer));
  }

  method RunResponseFilters(loaded: CompiledFilterSet, view: RequestView, req: FilterRequest, res: FilterResponse)
    returns (combined: ResponseAction, ran: seq<CompiledFilter>)
    ensures ran ==
            Ran(Selected(loaded.filters, MatchesPhase(ResponsePhase, view)), OnResponse(req, res), ResponseStops())
    ensures combined == ResponseFold(Answers(ran, OnResponse(req, res)))
  {
    var fs := loaded.filters;
    var dst := new CombinedResponseAction.Pass();
    ran := [];
    ghost var matches, answer, stops := MatchesPhase(ResponsePhase, view), OnResponse(req, res), ResponseStops();
    RunStarts(fs, matches, answer, stops);
    hide HasRun, Ran, Selected, Answers, MergedResponse, MatchesAnyGlob, ResponseFold;
    for i := 0 to |fs|
      invariant HasRun(fs, i, ran, matches, answer, stops)
      invariant dst.Value() == ResponseFold(Answers(ran, answer))
    {
      ResponseStep(fs, i, ran, view, req, res);
      var matched := fs[i].trigger.Match(ResponsePhase, view);
      if !matched {
        continue;
      }
      ran := ran + [fs[i]];
      match fs[i].onResponse(req, res) {
        case Ok(action) =>
          dst.Merge(action);
          if !dst.continueFilters {
            return dst.Value(), ran;
          }
        case Err(_) =>
      }
    }
    combined := dst.Value();
    RunEnds(fs, ran, matches, answer, stops);
  }

  // ----- connections

  ghost function OnConnect(conn: FilterConnect): CompiledFilter -> Option<ConnectAction> {
    (f: CompiledFilter) => f.onConnect(conn)
  }

  ghost function MatchesConnect(host: string): CompiledFilter -> bool {
    (f: CompiledFilter) => f.trigger.MatchesConnect(host)
  }

  ghost function ConnectStops(): ConnectAction -> bool {
    (action: ConnectAction) => !action.continueFilters
  }

  const CONNECT_PASS := ConnectAction([], true, false, None)

  function MergedConnect(dst: ConnectAction, src: ConnectAction): ConnectAction {
    ConnectAction(
      dst.marks + src.marks,
      src.continueFilters,
      dst.dropTunnel || src.dropTunnel,
      if src.rejectStatus.Some? then src.rejectStatus else dst.rejectStatus)
  }

  class CombinedConnectAction {
    var marks: seq<Mark>
    var continueFilters: bool
    var dropTunnel: bool
    var rejectStatus: Option<nat>

    function Value(): ConnectAction
      reads this
    {
      ConnectAction(marks, continueFilters, dropTunnel, rejectStatus)
    }

    constructor Pass()
      ensures Value() == CONNECT_PASS
    {
      marks, continueFilters, dropTunnel, rejectStatus := [], true, false, None;
    }

    method Merge(src: ConnectAction)
      modifies this
      ensures Value() == MergedConnect(old(Value()), src) && continueFilters == src.continueFilters
    {
      marks := marks + src.marks;
      if src.dropTunnel {
        dropTunnel := true;
      }
      if src.rejectStatus.Some? {
        rejectStatus := src.rejectStatus;
      }
      continueFilters := src.continueFilters;
    }
  }

  function RejectStatuses(actions: seq<ConnectAction>): (r: seq<Option<nat>>)
    ensures |r| == |actions| && forall i :: 0 <= i < |r| ==> r[i] == actions[i].rejectStatus
  {
    seq(|actions|, i requires 0 <= i < |actions| => actions[i].rejectStatus)
  }

  function ConnectMarks(actions: seq<ConnectAction>): seq<Mark> {
    if actions == [] then [] else ConnectMarks(actions[..|actions| - 1]) + actions[|actions| - 1].marks
  }

  ghost predicate SumsUpConnects(c: ConnectAction, actions: seq<ConnectAction>) {
    && c.marks == ConnectMarks(actions)
    && IsLatest(c.rejectStatus, RejectStatuses(actions))
    && (c.continueFilters <==> actions == [] || !ConnectStops()(actions[|actions| - 1]))
    && (c.dropTunnel <==> exists i :: 0 <= i < |actions| && actions[i].dropTunnel)
  }

  lemma MergeSumsUpConnects(c: ConnectAction, actions: seq<ConnectAction>, src: ConnectAction)
    requires SumsUpConnects(c, actions)
    ensures SumsUpConnects(MergedConnect(c, src), actions + [src])
  {
    var more := actions + [src];
    assert more[..|actions|] == actions && more[|actions|] == src;
    LatestSnoc(c.rejectStatus, RejectStatuses(actions), src.rejectStatus);
    assert RejectStatuses(more) == RejectStatuses(actions) + [src.rejectStatus];
    if c.dropTunnel {
      var i :| 0 <= i < |actions| && actions[i].dropTunnel;
      assert more[i].dropTunnel;
    }
  }

  /** The answers merged one by one into the empty action. */
  function ConnectFold(actions: seq<ConnectAction>): ConnectAction {
    if actions == [] then CONNECT_PASS
    else MergedConnect(ConnectFold(actions[..|actions| - 1]), actions[|actions| - 1])
  }

  lemma ConnectFoldSnoc(actions: seq<ConnectAction>, src: ConnectAction)
    ensures ConnectFold(actions + [src]) == MergedConnect(ConnectFold(actions), src)
  {
    assert (actions + [src])[..|actions|] == actions;
  }

  lemma {:induction false} ConnectFoldSumsUp(actions: seq<ConnectAction>)
    ensures SumsUpConnects(ConnectFold(actions), actions)
  {
    if actions != [] {
      var init, last := actions[..|actions| - 1], actions[|actions| - 1];
      ConnectFoldSumsUp(init);
      MergeSumsUpConnects(ConnectFold(init), init, last);
      assert actions == init + [last];
    }
  }

  /** One filter more: what has run and what the answers fold to. */
  lemma ConnectStep(fs: seq<CompiledFilter>, i: nat, ran: seq<CompiledFilter>, conn: FilterConnect)
    requires i < |fs| && HasRun(fs, i, ran, MatchesConnect(conn.host), OnConnect(conn), ConnectStops())
    ensures !fs[i].trigger.MatchesConnect(conn.host) ==>
      HasRun(fs, i + 1, ran, MatchesConnect(conn.host), OnConnect(conn), ConnectStops())
    ensures fs[i].trigger.MatchesConnect(conn.host) && fs[i].onConnect(conn).None? ==>
      && HasRun(fs, i + 1, ran + [fs[i]], MatchesConnect(conn.host), OnConnect(conn), ConnectStops())
      && ConnectFold(Answers(ran + [fs[i]], OnConnect(conn))) == ConnectFold(Answers(ran, OnConnect(conn)))
    ensures fs[i].trigger.MatchesConnect(conn.host) && fs[i].onConnect(conn).Some? ==>
      && ConnectFold(Answers(ran + [fs[i]], OnConnect(conn))) ==
         MergedConnect(ConnectFold(Answers(ran, OnConnect(conn))), fs[i].onConnect(conn).value)
      && if fs[i].onConnect(conn).value.continueFilters
         then HasRun(fs, i + 1, ran + [fs[i]], MatchesConnect(conn.host), OnConnect(conn), ConnectStops())
         else ran + [fs[i]] == Ran(Selected(fs, MatchesConnect(conn.host)), OnConnect(conn), ConnectStops())
  {
    hide HasRun, Ran, Selected, Answers, ConnectFold, MergedConnect, MatchesAnyGlob;
    RunStep(fs, i, ran, MatchesConnect(conn.host), OnConnect(conn), ConnectStops());
    AnswersSnoc(ran, fs[i], OnConnect(conn));
    if OnConnect(conn)(fs[i]).Some? {
      ConnectFoldSnoc(Answers(ran, OnConnect(conn)), OnConnect(conn)(fs[i]).value);
    }
  }

  /** What running the connect filters amounts to. */
  lemma ConnectsSumUp(
      matching: seq<CompiledFilter>, ran: seq<CompiledFilter>, answer: CompiledFilter -> Option<ConnectAction>)
    requires ran == Ran(matching, answer, ConnectStops())
    ensures RunsUntilStopped(matching, ran, answer, ConnectStops())
    ensures SumsUpConnects(ConnectFold(Answers(ran, answer)), Answers(ran, answer))
  {
    RanIsExact(matching, ran, answer, ConnectStops());
    StopComesLast(matching, ran, answer, ConnectStops());
    ConnectFoldSumsUp(Answers(ran, answer));
  }

  method RunConnectFilters(loaded: CompiledFilterSet, conn: FilterConnect)
    returns (combined: ConnectAction, ran: seq<CompiledFilter>)
    ensures ran == Ran(Selected(loaded.filters, MatchesConnect(conn.host)), OnConnect(conn), ConnectStops())
    ensures combined == ConnectFold(Answers(ran, OnConnect(conn)))
  {
    var fs := loaded.filters;
    var dst := new CombinedConnectAction.Pass();
    ran := [];
    ghost var matches, answer, stops := MatchesConnect(conn.host), OnConnect(conn), ConnectStops();
    RunStarts(fs, matches, answer, stops);
    hide HasRun, Ran, Selected, Answers, MergedConnect, MatchesAnyGlob, ConnectFold;
    for i := 0 to |fs|
      invariant HasRun(fs, i, ran, matches, answer, stops)
      invariant dst.Value() == ConnectFold(Answers(ran, answer))
    {
      ConnectStep(fs, i, ran, conn);
      var matched := fs[i].trigger.MatchConnect(conn.host);
      if !matched {
        continue;
      }
      ran := ran + [fs[i]];
      var action := fs[i].onConnect(conn);
      if action.None? {
        continue;
      }
      dst.Merge(action.value);
      if !dst.continueFilters {
        return dst.Value(), ran;
      }
    }
    combined := dst.Value();
    RunEnds(fs, ran, matches, answer, stops);
  }
}
