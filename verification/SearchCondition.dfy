/** Packet rows and the search conditions that select them (src/tui/mod.rs). */
module SearchCondition {
  import opened Wrappers
  import opened Text
  import opened Numbers

  datatype RowMark = RowMark(text: string, color: Option<string>)

  /** A row of the packet list; the rendered line of a captured packet is not part of this model. */
  datatype Row = Row(
    id: string, flowKey: string, verb: string, status: Option<U16>, elapsed: Option<int>,
    protocol: string, host: string, uri: string, query: string, marks: seq<RowMark>, line: string)
  {
    function UrlText(): string {
      (if protocol == "" then "" else protocol + "://") + host + uri + (if query == "" then "" else "?" + query)
    }

    /** Tunnels are opened by CONNECT requests. */
    predicate IsTunnel() {
      verb == "CONNECT"
    }
  }

  /** One condition; regular expressions are taken as predicates on the URL text. */
  datatype Condition =
    | Not(condition: Condition)
    | Any(conditions: seq<Condition>)
    | UrlContains(text: string)
    | UrlRegex(accepts: string -> bool)
    | VerbIs(verb: string)
    | VerbAny(verbs: seq<string>)
    | StatusIs(status: U16)
    | StatusClass(hundreds: nat)
    | NoStatus
  {
    predicate Matches(row: Row) {
      match this
      case Not(condition) => !condition.Matches(row)
      case Any(conditions) => exists i :: 0 <= i < |conditions| && conditions[i].Matches(row)
      case UrlContains(text) => Contains(Lower(row.UrlText()), text)
      case UrlRegex(accepts) => accepts(row.UrlText())
      case VerbIs(verb) => EqIgnoreCase(row.verb, verb)
      case VerbAny(verbs) => exists v :: v in verbs && EqIgnoreCase(row.verb, v)
      case StatusIs(status) => row.status == Some(status)
      case StatusClass(hundreds) => row.status.Some? && row.status.value / 100 == hundreds
      case NoStatus => row.status.None?
    }
  }

  type Matcher = seq<Condition>

  predicate Accepts(m: Matcher, row: Row) {
    forall i :: 0 <= i < |m| ==> m[i].Matches(row)
  }

  /** A search looks at nothing but the URL, the method and the status. */
  lemma {:induction false} MatchesSeesOnly(c: Condition, a: Row, b: Row)
    requires a.UrlText() == b.UrlText() && a.verb == b.verb && a.status == b.status
    ensures c.Matches(a) <==> c.Matches(b)
  {
    match c
    case Not(condition) => MatchesSeesOnly(condition, a, b);
    case Any(conditions) =>
      forall i | 0 <= i < |conditions| ensures conditions[i].Matches(a) <==> conditions[i].Matches(b) {
        MatchesSeesOnly(conditions[i], a, b);
      }
    case _ =>
  }

  lemma AcceptsSeesOnly(m: Matcher, a: Row, b: Row)
    requires a.UrlText() == b.UrlText() && a.verb == b.verb && a.status == b.status
    ensures Accepts(m, a) <==> Accepts(m, b)
  {
    forall i | 0 <= i < |m| ensures m[i].Matches(a) <==> m[i].Matches(b) {
      MatchesSeesOnly(m[i], a, b);
    }
  }

  /** Every packet is found by a condition or by its negation, and never by both. */
  lemma {:induction false} NegationExcludes(c: Condition, row: Row)
    ensures Accepts([c], row) != Accepts([Not(c)], row)
    ensures Accepts([Not(Not(c))], row) == Accepts([c], row)
  {
    OneCondition(c, row);
    OneCondition(Not(c), row);
    OneCondition(Not(Not(c)), row);
  }

  lemma OneCondition(c: Condition, row: Row)
    ensures Accepts([c], row) <==> c.Matches(row)
  {
    assert [c][0] == c;
  }

  /** Alternatives find what one of them finds; their negation finds what all negations find. */
  lemma AnyFindsEach(conditions: seq<Condition>, row: Row)
    ensures Accepts([Any(conditions)], row) <==> exists c :: c in conditions && Accepts([c], row)
    ensures Accepts([Not(Any(conditions))], row) <==> forall c :: c in conditions ==> Accepts([Not(c)], row)
  {
    hide Condition.Matches;
    forall c: Condition ensures Accepts([c], row) <==> c.Matches(row) {
      OneCondition(c, row);
    }
    forall c: Condition ensures Accepts([Not(c)], row) != Accepts([c], row) {
      NegationExcludes(c, row);
    }
    AnyMatches(conditions, row);
  }

  lemma AnyMatches(conditions: seq<Condition>, row: Row)
    ensures Any(conditions).Matches(row) <==> exists c :: c in conditions && c.Matches(row)
  {
    if Any(conditions).Matches(row) {
      var i :| 0 <= i < |conditions| && conditions[i].Matches(row);
      assert conditions[i] in conditions;
    }
  }

  /** More conditions find the packets that all of them find. */
  lemma ConditionsIntersect(a: Matcher, b: Matcher, row: Row)
    ensures Accepts(a + b, row) <==> Accepts(a, row) && Accepts(b, row)
  {
    if Accepts(a + b, row) {
      forall i | 0 <= i < |a| ensures a[i].Matches(row) { assert (a + b)[i] == a[i]; }
      forall i | 0 <= i < |b| ensures b[i].Matches(row) { assert (a + b)[|a| + i] == b[i]; }
    }
  }

  /** What the conditions on the status find. */
  lemma StatusConditions(row: Row, status: U16, hundreds: nat)
    ensures Accepts([StatusIs(status)], row) <==> row.status.Some? && row.status.value == status
    ensures Accepts([StatusClass(hundreds)], row) <==>
      row.status.Some? && 100 * hundreds <= row.status.value < 100 * hundreds + 100
    ensures Accepts([NoStatus], row) <==> row.status.None?
  {
    OneCondition(StatusIs(status), row);
    OneCondition(StatusClass(hundreds), row);
    OneCondition(NoStatus, row);
  }

  /** What the conditions on the method find. */
  lemma VerbConditions(row: Row, verb: string, verbs: seq<string>)
    ensures Accepts([VerbIs(verb)], row) <==> Lower(row.verb) == Lower(verb)
    ensures Accepts([VerbAny(verbs)], row) <==> exists v :: v in verbs && Accepts([VerbIs(v)], row)
  {
    OneCondition(VerbIs(verb), row);
    OneCondition(VerbAny(verbs), row);
    forall v: string ensures Accepts([VerbIs(v)], row) <==> EqIgnoreCase(row.verb, v) {
      OneCondition(VerbIs(v), row);
    }
  }

  /** A text is searched for anywhere in the lower-cased URL, a pattern is shown the URL as it is. */
  lemma UrlConditions(row: Row, text: string, accepts: string -> bool)
    ensures Accepts([UrlContains(text)], row) <==> exists a, b :: Lower(row.UrlText()) == a + text + b
    ensures Accepts([UrlRegex(accepts)], row) <==> accepts(row.UrlText())
  {
    hide Lower, Row.UrlText;
    OneCondition(UrlContains(text), row);
    OneCondition(UrlRegex(accepts), row);
    ContainsMeans(Lower(row.UrlText()), text);
  }

  lemma ContainsMeans(s: string, text: string)
    ensures Contains(s, text) <==> exists a, b :: s == a + text + b
  {
    if Contains(s, text) {
      var i := Find(s, text).value;
      assert s == s[..i] + text + s[i + |text|..];
    }
    if exists a, b :: s == a + text + b {
      var a, b :| s == a + text + b;
      assert s[|a|..|a| + |text|] == text;
      assert OccursAt(s, text, |a|);
    }
  }
}
