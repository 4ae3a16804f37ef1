/** Host and path globs (src/filters/types.rs). The matcher is greedy and never backtracks;
    here it is compared with the language a glob pattern denotes. */
module Glob {
  import opened Wrappers
  import opened Text

  /** The language of a pattern: '*' stands for any text, every other character for itself. */
  ghost predicate Lang(p: string, v: string)
    decreases |p|
  {
    if p == "" then v == ""
    else if p[0] == '*' then exists k :: 0 <= k <= |v| && Lang(p[1..], v[k..])
    else v != "" && v[0] == p[0] && Lang(p[1..], v[1..])
  }

  predicate EndsInStar(p: string) {
    p != "" && p[|p| - 1] == '*'
  }

  /** No proper prefix of `v` is in the language. */
  ghost predicate Shortest(p: string, v: string) {
    forall k :: 0 <= k < |v| ==> !Lang(p, v[..k])
  }

  /** What the greedy matcher accepts: members of the language, and for a pattern that does not
      end in '*' only those with no shorter member in front. */
  ghost predicate Accepts(p: string, v: string) {
    Lang(p, v) && (EndsInStar(p) || Shortest(p, v))
  }

  // ----- the language, piece by piece

  lemma {:induction false} LangLiteral(s: string, q: string, v: string)
    requires '*' !in s
    ensures Lang(s + q, v) <==> s <= v && Lang(q, v[|s|..])
  {
    if s == "" {
      assert s + q == q && v[0..] == v;
    } else {
      assert (s + q)[0] == s[0] && (s + q)[1..] == s[1..] + q;
      if v != "" {
        LangLiteral(s[1..], q, v[1..]);
        assert s <= v <==> s[0] == v[0] && s[1..] <= v[1..];
        if s <= v { assert v[1..][|s| - 1..] == v[|s|..]; }
      }
    }
  }

  /** A pattern that starts with '*' also matches anything longer on the left. */
  lemma LangGrows(q: string, v: string, i: nat)
    requires q != "" && q[0] == '*' && i <= |v|
    requires Lang(q, v[i..])
    ensures Lang(q, v)
  {
    var k :| 0 <= k <= |v[i..]| && Lang(q[1..], v[i..][k..]);
    assert v[i..][k..] == v[i + k..];
  }

  lemma LangStarStar(q: string, v: string)
    requires q != "" && q[0] == '*'
    ensures Lang("*" + q, v) <==> Lang(q, v)
  {
    assert ("*" + q)[1..] == q;
    if Lang("*" + q, v) {
      var k :| 0 <= k <= |v| && Lang(q, v[k..]);
      LangGrows(q, v, k);
    }
    if Lang(q, v) {
      assert v[0..] == v;
    }
  }

  lemma LangOccurs(s: string, q: string, v: string) returns (k: nat)
    requires '*' !in s && Lang("*" + s + q, v)
    ensures OccursAt(v, s, k) && Lang(q, v[k + |s|..])
  {
    assert ("*" + s + q)[1..] == s + q;
    k :| 0 <= k <= |v| && Lang(s + q, v[k..]);
    LangLiteral(s, q, v[k..]);
    assert v[k..][|s|..] == v[k + |s|..];
  }

  /** When a '*' follows, searching for the leftmost occurrence is enough. */
  lemma LangSearch(s: string, q: string, v: string)
    requires '*' !in s
    requires q != "" && q[0] == '*'
    ensures Lang("*" + s + q, v) <==> Find(v, s).Some? && Lang(q, v[Find(v, s).value + |s|..])
  {
    if Lang("*" + s + q, v) {
      var k := LangOccurs(s, q, v);
      var f := Find(v, s).value;
      assert v[f + |s|..][k - f..] == v[k + |s|..];
      LangGrows(q, v[f + |s|..], k - f);
    }
    if Find(v, s).Some? && Lang(q, v[Find(v, s).value + |s|..]) {
      LangAt(s, q, v, Find(v, s).value);
    }
  }

  /** Without one, the literal has to end the value. */
  lemma LangLast(s: string, v: string)
    requires '*' !in s
    ensures Lang("*" + s, v) <==> EndsWith(v, s)
  {
    assert "*" + s + "" == "*" + s;
    if Lang("*" + s, v) {
      var k := LangOccurs(s, "", v);
    }
    if EndsWith(v, s) {
      LangAt(s, "", v, |v| - |s|);
    }
  }

  lemma LangAt(s: string, q: string, v: string, k: nat)
    requires '*' !in s && OccursAt(v, s, k) && Lang(q, v[k + |s|..])
    ensures Lang("*" + s + q, v)
  {
    assert ("*" + s + q)[1..] == s + q;
    assert v[k..][|s|..] == v[k + |s|..];
    LangLiteral(s, q, v[k..]);
  }

  // ----- one step of the matcher keeps the answer

  lemma AcceptsLiteral(s: string, q: string, v: string)
    requires '*' !in s
    requires q == "" || q[0] == '*'
    ensures Accepts(s + q, v) <==> s <= v && Accepts(q, v[|s|..])
  {
    LangLiteral(s, q, v);
    if s <= v && Lang(s + q, v) {
      assert q != "" ==> (s + q)[|s + q| - 1] == q[|q| - 1];
      assert q == "" ==> s + q == s;
      var w := v[|s|..];
      forall k | 0 <= k < |v|
        ensures Lang(s + q, v[..k]) <==> k >= |s| && Lang(q, w[..k - |s|])
      {
        LangLiteral(s, q, v[..k]);
        if k >= |s| { assert v[..k][|s|..] == w[..k - |s|]; }
      }
      assert Shortest(s + q, v) <==> Shortest(q, w) by {
        if Shortest(s + q, v) {
          forall k | 0 <= k < |w| ensures !Lang(q, w[..k]) {
            assert !Lang(s + q, v[..k + |s|]);
          }
        }
      }
    }
  }

  /** Cutting the value short leaves the leftmost occurrence where it was. */
  lemma FindInPrefix(v: string, s: string, k: nat)
    requires s != "" && k <= |v|
    ensures Find(v[..k], s) == if Find(v, s).Some? && Find(v, s).value + |s| <= k then Find(v, s) else None
  {
    forall i: nat ensures OccursAt(v[..k], s, i) <==> OccursAt(v, s, i) && i + |s| <= k {
      if i + |s| <= k { assert v[..k][i..i + |s|] == v[i..i + |s|]; }
    }
  }

  lemma AcceptsSearch(s: string, q: string, v: string)
    requires s != "" && '*' !in s
    requires q == "" || q[0] == '*'
    ensures Accepts("*" + s + q, v) <==>
            Find(v, s).Some? && Accepts(q, v[Find(v, s).value + |s|..])
  {
    var p := "*" + s + q;
    if q == "" {
      assert p == "*" + s;
      AcceptsLast(s, v);
    } else if Find(v, s).Some? {
      LangSearch(s, q, v);
      assert p[|p| - 1] == q[|q| - 1];
      var n := Find(v, s).value + |s|;
      var w := v[n..];
      forall k | 0 <= k < |v| ensures Lang(p, v[..k]) <==> k >= n && Lang(q, w[..k - n]) {
        LangSearch(s, q, v[..k]);
        FindInPrefix(v, s, k);
        if k >= n { assert v[..k][n..] == w[..k - n]; }
      }
      assert Shortest(p, v) <==> Shortest(q, w) by {
        if Shortest(p, v) {
          forall k | 0 <= k < |w| ensures !Lang(q, w[..k]) {
            assert !Lang(p, v[..k + n]);
          }
        }
      }
    } else {
      LangSearch(s, q, v);
    }
  }

  lemma PrefixEndsWith(s: string, v: string, k: nat)
    requires '*' !in s && k <= |v|
    ensures Lang("*" + s, v[..k]) <==> k >= |s| && OccursAt(v, s, k - |s|)
  {
    hide Lang;
    LangLast(s, v[..k]);
    if k >= |s| {
      assert v[..k][k - |s|..] == v[k - |s|..k];
    }
  }

  /** The last literal of a pattern: its leftmost occurrence must end the value. */
  lemma AcceptsLast(s: string, v: string)
    requires s != "" && '*' !in s
    ensures Accepts("*" + s, v) <==> Find(v, s) == Some(|v| - |s|)
  {
    hide Lang, OccursAt;
    assert ("*" + s)[|s|] == s[|s| - 1];
    assert v[..|v|] == v;
    forall k | 0 <= k <= |v| ensures Lang("*" + s, v[..k]) <==> k >= |s| && OccursAt(v, s, k - |s|) {
      PrefixEndsWith(s, v, k);
    }
    if Find(v, s).Some? {
      var n := Find(v, s).value + |s|;
      FindFits(v, s);
      assert Lang("*" + s, v[..n]);
    }
  }

  lemma FindFits(v: string, s: string)
    requires Find(v, s).Some?
    ensures Find(v, s).value + |s| <= |v|
  {
  }

  lemma AcceptsStarStar(q: string, v: string)
    requires q != "" && q[0] == '*'
    ensures Accepts("*" + q, v) <==> Accepts(q, v)
  {
    LangStarStar(q, v);
    forall k | 0 <= k < |v| ensures Lang("*" + q, v[..k]) <==> Lang(q, v[..k]) {
      LangStarStar(q, v[..k]);
    }
    assert ("*" + q)[|q|] == q[|q| - 1];
  }

  lemma AcceptsStar(v: string)
    ensures Accepts("*", v)
  {
    assert v[|v|..] == "";
    assert "*"[1..] == "";
  }

  // ----- the parts between stars

  function NonEmpty(ps: seq<string>): seq<string> {
    if ps == [] then []
    else if ps[0] == "" then NonEmpty(ps[1..])
    else [ps[0]] + NonEmpty(ps[1..])
  }

  function Parts(p: string): seq<string> {
    NonEmpty(SplitOn(p, '*'))
  }

  function SkipStars(p: string): (r: string)
    ensures r == "" || r[0] != '*'
    ensures |r| <= |p|
    ensures r != "" ==> EndsInStar(r) == EndsInStar(p)
    ensures r == "" && p != "" ==> EndsInStar(p)
  {
    if p != "" && p[0] == '*' then SkipStars(p[1..]) else p
  }

  lemma {:induction false} PartsSkip(p: string)
    ensures Parts(p) == Parts(SkipStars(p))
  {
    if p != "" && p[0] == '*' {
      assert SplitOn(p, '*') == [""] + SplitOn(p[1..], '*') by { assert p[..0] == ""; }
      PartsSkip(p[1..]);
    }
  }

  lemma NoPartsInEmpty()
    ensures Parts("") == []
  {
    assert SplitOn("", '*') == [""];
    assert [""][1..] == [];
  }

  /** The first part runs to the next star. */
  lemma PartsStep(r: string)
    requires r != "" && r[0] != '*'
    ensures Before(r, '*') != "" && '*' !in Before(r, '*')
    ensures Parts(r) == [Before(r, '*')] + Parts(r[|Before(r, '*')|..])
    ensures var q := r[|Before(r, '*')|..]; q == "" || q[0] == '*'
  {
    match IndexOf(r, '*')
    case None =>
      assert r[|r|..] == "";
      NoPartsInEmpty();
      assert [r][1..] == [];
      assert NonEmpty([r]) == [r] + NonEmpty([]);
    case Some(i) =>
      var q := r[i..];
      assert q[1..] == r[i + 1..];
      assert SplitOn(q, '*') == [""] + SplitOn(q[1..], '*') by { assert q[..0] == ""; }
      assert SplitOn(r, '*') == [r[..i]] + SplitOn(r[i + 1..], '*');
  }

  lemma {:induction false} AcceptsSkip(p: string, v: string)
    requires p != "" && p[0] == '*'
    ensures Accepts(p, v) <==> Accepts("*" + SkipStars(p), v)
  {
    assert p == "*" + p[1..];
    if p[1..] != "" && p[1] == '*' {
      AcceptsSkip(p[1..], v);
      AcceptsStarStar(p[1..], v);
    }
  }

  lemma AcceptsNoParts(p: string, v: string)
    requires Parts(p) == []
    ensures Accepts(p, v) <==> p != "" || v == ""
    ensures p != "" ==> EndsInStar(p)
  {
    PartsSkip(p);
    if SkipStars(p) != "" {
      PartsStep(SkipStars(p));
    }
    if p != "" {
      AcceptsSkip(p, v);
      AcceptsStar(v);
    }
  }

  /** The pattern after its first part. */
  function AfterPart(p: string): string {
    var r := SkipStars(p);
    r[|Before(r, '*')|..]
  }

  /** One round of the matcher: the rest of the pattern against the rest of the value. */
  lemma MatchStep(p: string, v: string)
    requires Parts(p) != []
    ensures p != "" && Parts(AfterPart(p)) == Parts(p)[1..]
    ensures AfterPart(p) == "" ==> !EndsInStar(p)
    ensures AfterPart(p) != "" ==> AfterPart(p)[0] == '*' && EndsInStar(AfterPart(p)) == EndsInStar(p)
    ensures var part := Parts(p)[0];
      if p[0] != '*' then Accepts(p, v) <==> part <= v && Accepts(AfterPart(p), v[|part|..])
      else Accepts(p, v) <==>
           Find(v, part).Some? && Accepts(AfterPart(p), v[Find(v, part).value + |part|..])
  {
    hide Accepts, Lang, Parts;
    var r := SkipStars(p);
    PartsSkip(p);
    NoPartsInEmpty();
    PartsStep(r);
    var part, q := Before(r, '*'), AfterPart(p);
    assert Parts(p)[0] == part;
    assert r == part + q;
    assert q != "" ==> q[|q| - 1] == r[|r| - 1];
    assert q == "" ==> r == part && part[|part| - 1] != '*';
    if p[0] != '*' {
      assert r == p;
      AcceptsLiteral(part, q, v);
    } else {
      AcceptsSkip(p, v);
      assert "*" + r == "*" + part + q;
      AcceptsSearch(part, q, v);
    }
  }

  // ----- the matcher

  /** The greedy matcher accepts exactly the shortest members of the language, or every member
      when the pattern ends in '*'; ASCII case is ignored. */
  method GlobMatch(pattern: string, value: string) returns (matched: bool)
    ensures matched <==> Accepts(Lower(pattern), Lower(value))
  {
    if pattern == "*" {
      AcceptsStar(Lower(value));
      assert Lower(pattern) == "*";
      return true;
    }
    var p := Lower(pattern);
    var v := Lower(value);
    if '*' !in p {
      ExactWhenPlainOrTrailingStar(p, v);
      return p == v;
    }
    var startsWithWildcard := p[0] == '*';
    var endsWithWildcard := EndsInStar(p);
    var parts := Parts(p);
    ghost var pat := p;
    if parts == [] {
      AcceptsNoParts(p, v);
      return true;
    }
    var rest := v;
    for idx := 0 to |parts|
      invariant Parts(pat) == parts[idx..]
      invariant Accepts(p, v) <==> Accepts(pat, rest)
      invariant pat == "" ==> !endsWithWildcard
      invariant pat != "" ==> EndsInStar(pat) == endsWithWildcard
      invariant idx == 0 ==> pat == p
      invariant idx > 0 && pat != "" ==> pat[0] == '*'
    {
      var part := parts[idx];
      MatchStep(pat, rest);
      if idx == 0 && !startsWithWildcard {
        if !(part <= rest) {
          return false;
        }
        rest := rest[|part|..];
      } else {
        var found := Find(rest, part);
        if found.None? {
          return false;
        }
        rest := rest[found.value + |part|..];
      }
      pat := AfterPart(pat);
    }
    AcceptsNoParts(pat, rest);
    matched := endsWithWildcard || rest == "";
  }

  // ----- what the answer means for a caller

  /** Greedy matching is exact for patterns without '*' and for patterns that end in '*'. */
  lemma ExactWhenPlainOrTrailingStar(p: string, v: string)
    requires '*' !in p || EndsInStar(p)
    ensures Accepts(p, v) <==> Lang(p, v)
    ensures '*' !in p ==> (Accepts(p, v) <==> v == p)
  {
    if '*' !in p {
      LangLiteral(p, "", v);
      AcceptsLiteral(p, "", v);
      assert p + "" == p;
    }
  }

  /** The pattern "*ab" denotes "abab" but the matcher refuses it. */
  lemma GreedyRejectsMember()
    ensures Lang("*ab", "abab") && !Accepts("*ab", "abab")
  {
    assert "*" + "ab" == "*ab";
    LangLast("ab", "abab");
    AcceptsLast("ab", "abab");
    assert OccursAt("abab", "ab", 0);
    assert EndsWith("abab", "ab");
  }

  lemma {:induction false} LangConcat(p: string, q: string, v: string, w: string)
    requires Lang(p, v) && Lang(q, w)
    ensures Lang(p + q, v + w)
    decreases |p|
  {
    if p == "" {
      assert p + q == q && v + w == w;
    } else {
      assert (p + q)[1..] == p[1..] + q;
      if p[0] == '*' {
        var k :| 0 <= k <= |v| && Lang(p[1..], v[k..]);
        LangConcat(p[1..], q, v[k..], w);
        assert (v + w)[k..] == v[k..] + w;
      } else {
        LangConcat(p[1..], q, v[1..], w);
        assert (v + w)[1..] == v[1..] + w;
      }
    }
  }

  /** A pattern denotes its own text, stars included. */
  lemma {:induction false} LangSelf(p: string)
    ensures Lang(p, p)
  {
    if p != "" {
      LangSelf(p[1..]);
    }
  }

  function Literals(p: string): nat {
    if p == "" then 0 else (if p[0] == '*' then 0 else 1) + Literals(p[1..])
  }

  lemma {:induction false} LiteralsConcat(p: string, q: string)
    ensures Literals(p + q) == Literals(p) + Literals(q)
  {
    if p == "" {
      assert p + q == q;
    } else {
      assert (p + q)[1..] == p[1..] + q;
      LiteralsConcat(p[1..], q);
    }
  }

  lemma {:induction false} MembersHaveTheLiterals(p: string, v: string)
    requires Lang(p, v)
    ensures Literals(v) >= Literals(p)
    decreases |p|
  {
    if p != "" {
      if p[0] == '*' {
        var k :| 0 <= k <= |v| && Lang(p[1..], v[k..]);
        MembersHaveTheLiterals(p[1..], v[k..]);
        LiteralsConcat(v[..k], v[k..]);
        assert v[..k] + v[k..] == v;
      } else {
        MembersHaveTheLiterals(p[1..], v[1..]);
      }
    }
  }

  /** Every pattern matches its own text, whatever stars it contains. */
  lemma AcceptsSelf(p: string)
    ensures Accepts(p, p)
  {
    LangSelf(p);
    if !EndsInStar(p) {
      forall k | 0 <= k < |p| ensures !Lang(p, p[..k]) {
        LiteralsConcat(p[..k], p[k..]);
        assert p[..k] + p[k..] == p;
        var n := |p| - 1;
        LiteralsConcat(p[k..n], p[n..]);
        assert p[k..n] + p[n..] == p[k..];
        assert Literals(p[n..]) == 1 by { assert p[n..][1..] == ""; }
        if Lang(p, p[..k]) {
          MembersHaveTheLiterals(p, p[..k]);
        }
      }
    }
  }

  lemma RepeatedEndIsMember(q: string, l: string)
    ensures Lang((q + "*") + l, q + ("*" + l) + l)
  {
    hide Lang;
    LangSelf(q);
    LangSelf(l);
    AcceptsStar("*" + l);
    LangConcat(q, "*", q, "*" + l);
    LangConcat(q + "*", l, q + ("*" + l), l);
  }

  lemma LongerIsRefused(p: string, l: string)
    requires l != "" && !EndsInStar(p)
    ensures !Accepts(p, p + l)
  {
    hide Lang;
    LangSelf(p);
    assert (p + l)[..|p|] == p;
  }

  /** A last literal behind a star can be repeated: the language has the longer text, the matcher does
      not. */
  lemma RepeatedEndIsRefused(q: string, l: string)
    requires l != "" && '*' !in l
    ensures var p := q + "*" + l;
      Lang(p, p + l) && !Accepts(p, p + l)
  {
    hide Lang, Accepts;
    RepeatedEndIsMember(q, l);
    SeqAssoc(q, "*", l);
    assert (q + "*" + l)[|q + "*" + l| - 1] == l[|l| - 1];
    LongerIsRefused(q + "*" + l, l);
  }

  /** Exactly for patterns without a star or with a final one, the matcher is a matcher for the
      language. */
  lemma ExactlyWhenPlainOrTrailingStar(p: string)
    ensures (forall v :: Accepts(p, v) <==> Lang(p, v)) <==> '*' !in p || EndsInStar(p)
  {
    if '*' !in p || EndsInStar(p) {
      forall v ensures Accepts(p, v) <==> Lang(p, v) {
        ExactWhenPlainOrTrailingStar(p, v);
      }
    } else {
      hide Lang, Accepts;
      var i := LastIndexOf(p, '*').value;
      var q, l := p[..i], p[i + 1..];
      assert p == q + "*" + l;
      RepeatedEndIsRefused(q, l);
    }
  }
}
