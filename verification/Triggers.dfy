/** The trigger of a filter: which connections, requests and responses it is run for
    (src/filters/types.rs). */
module Triggers {
  import opened Text
  import opened Glob

  datatype Phase = ConnectPhase | RequestPhase | ResponsePhase | CompletedPhase

  datatype RequestView = RequestView(host: string, path: string, verb: string)

  ghost predicate MatchesAnyGlob(patterns: seq<string>, value: string) {
    patterns == [] || exists p :: p in patterns && Accepts(Lower(p), Lower(value))
  }

  method MatchAnyGlob(patterns: seq<string>, value: string) returns (matched: bool)
    ensures matched <==> MatchesAnyGlob(patterns, value)
  {
    if patterns == [] {
      return true;
    }
    for i := 0 to |patterns|
      invariant forall j :: 0 <= j < i ==> !Accepts(Lower(patterns[j]), Lower(value))
    {
      var hit := GlobMatch(patterns[i], value);
      if hit {
        return true;
      }
    }
    return false;
  }

  datatype Trigger = Trigger(hosts: seq<string>, paths: seq<string>, verbs: seq<string>, phases: seq<Phase>) {
    predicate MatchesPhase(phase: Phase) {
      phases == [] || phase in phases
    }

    predicate MatchesVerb(verb: string) {
      verbs == [] || exists v :: v in verbs && EqIgnoreCase(v, verb)
    }

    ghost predicate MatchesConnect(host: string) {
      MatchesPhase(ConnectPhase) && MatchesAnyGlob(hosts, Lower(host))
    }

    /** Requests, responses and completed flows are matched on the request they belong to. */
    ghost predicate Matches(phase: Phase, req: RequestView) {
      MatchesPhase(phase) && MatchesAnyGlob(hosts, Lower(req.host))
      && MatchesAnyGlob(paths, req.path) && MatchesVerb(req.verb)
    }

    method MatchConnect(host: string) returns (matched: bool)
      ensures matched <==> MatchesConnect(host)
      ensures matched <==>
        && (phases == [] || ConnectPhase in phases)
        && (hosts == [] || exists p :: p in hosts && Accepts(Lower(p), Lower(host)))
    {
      LowerTwice(host);
      if !MatchesPhase(ConnectPhase) {
        return false;
      }
      matched := MatchAnyGlob(hosts, Lower(host));
    }

    /** A list that is empty asks for nothing; otherwise one of its members has to match. */
    method Match(phase: Phase, req: RequestView) returns (matched: bool)
      ensures matched <==> Matches(phase, req)
      ensures matched <==>
        && (phases == [] || phase in phases)
        && (hosts == [] || exists p :: p in hosts && Accepts(Lower(p), Lower(req.host)))
        && (paths == [] || exists p :: p in paths && Accepts(Lower(p), Lower(req.path)))
        && (verbs == [] || exists v :: v in verbs && Lower(v) == Lower(req.verb))
    {
      LowerTwice(req.host);
      if !MatchesPhase(phase) {
        return false;
      }
      var host := MatchAnyGlob(hosts, Lower(req.host));
      if !host {
        return false;
      }
      var path := MatchAnyGlob(paths, req.path);
      return path && MatchesVerb(req.verb);
    }
  }
}
