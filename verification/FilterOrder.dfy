/** The order filters are run in (src/filters/runtime.rs): by priority, then by path, keeping the
    order of loading between filters that agree in both. */
module FilterOrder {
  import opened Wrappers
  import opened Messages
  import opened HeaderPatch
  import opened Triggers
  import opened Generator

  // ----- what filters are and what they answer

  datatype Mark = Mark(caption: string, color: Option<string>)

  datatype SyntheticResponse = SyntheticResponse(status: nat, headers: seq<Header>, body: string)

  datatype OutboundJob = OutboundJob(client: string, verb: string, path: string, headers: seq<Header>)

  datatype FilterConnect = FilterConnect(id: string, host: string, port: nat)

  datatype ConnectAction = ConnectAction(
    marks: seq<Mark>, continueFilters: bool, dropTunnel: bool, rejectStatus: Option<nat>)

  /** What an answer adds to the flow. */
  datatype Extras = Extras(marks: seq<Mark>, tags: seq<string>, notes: seq<string>, outbound: seq<OutboundJob>) {
    function Then(more: Extras): Extras {
      Extras(marks + more.marks, tags + more.tags, notes + more.notes, outbound + more.outbound)
    }
  }

  datatype RequestAction = RequestAction(
    patch: Option<Patch>, synthetic: Option<SyntheticResponse>, extras: Extras,
    continueFilters: bool, dropClientResponse: bool, bypassUpstreamProxy: bool)

  datatype ResponseAction = ResponseAction(
    patch: Option<Patch>, extras: Extras, continueFilters: bool, dropClientResponse: bool)

  /** What a filter answers depends on what it is shown; a filter without a connect handler does not
      answer to connections. */
  datatype CompiledFilter = CompiledFilter(
    priority: int, path: seq<string>, trigger: Trigger,
    onConnect: FilterConnect -> Option<ConnectAction>,
    onRequest: FilterRequest -> Result<RequestAction, string>,
    onResponse: (FilterRequest, FilterResponse) -> Result<ResponseAction, string>)
  {
    function SortKey(): Key {
      Key(priority, path)
    }
  }

  /** Paths are compared component by component. */
  datatype Key = Key(priority: int, path: seq<string>)

  // ----- the order of keys

  predicate TextBefore(a: string, b: string) {
    b != [] && (a == [] || a[0] < b[0] || (a[0] == b[0] && TextBefore(a[1..], b[1..])))
  }

  predicate PathBefore(a: seq<string>, b: seq<string>) {
    b != [] && (a == [] || TextBefore(a[0], b[0]) || (a[0] == b[0] && PathBefore(a[1..], b[1..])))
  }

  predicate Before(a: Key, b: Key) {
    a.priority < b.priority || (a.priority == b.priority && PathBefore(a.path, b.path))
  }

  /** The first differing character is the lower one, or the text ends where the other goes on. */
  ghost predicate TextComesFirst(a: string, b: string) {
    exists n: nat | n <= |a| && n < |b| :: a[..n] == b[..n] && (n == |a| || a[n] < b[n])
  }

  /** The first differing component comes first, or the path ends where the other goes on. */
  ghost predicate PathComesFirst(a: seq<string>, b: seq<string>) {
    exists n: nat | n <= |a| && n < |b| :: a[..n] == b[..n] && (n == |a| || TextComesFirst(a[n], b[n]))
  }

  lemma {:induction false} TextBeforeExactly(a: string, b: string)
    ensures TextBefore(a, b) <==> TextComesFirst(a, b)
  {
    if a != [] && b != [] {
      TextBeforeExactly(a[1..], b[1..]);
      if TextBefore(a, b) {
        if a[0] < b[0] {
          assert a[..0] == b[..0];
        } else {
          var n: nat :| n <= |a[1..]| && n < |b[1..]| && a[1..][..n] == b[1..][..n]
                        && (n == |a[1..]| || a[1..][n] < b[1..][n]);
          assert a[..n + 1] == [a[0]] + a[1..][..n] && b[..n + 1] == [b[0]] + b[1..][..n];
        }
      }
      if TextComesFirst(a, b) {
        var n: nat :| n <= |a| && n < |b| && a[..n] == b[..n] && (n == |a| || a[n] < b[n]);
        if n > 0 {
          assert a[0] == a[..n][0] == b[..n][0] == b[0];
          assert a[1..][..n - 1] == a[..n][1..] && b[1..][..n - 1] == b[..n][1..];
        }
      }
    } else if b != [] {
      assert a[..0] == b[..0];
    }
  }

  lemma {:induction false} PathBeforeExactly(a: seq<string>, b: seq<string>)
    ensures PathBefore(a, b) <==> PathComesFirst(a, b)
  {
    hide TextBefore, TextComesFirst;
    if a != [] && b != [] {
      TextBeforeExactly(a[0], b[0]);
      TextOrder(a[0], b[0]);
      PathBeforeExactly(a[1..], b[1..]);
      if PathBefore(a, b) {
        if TextBefore(a[0], b[0]) {
          assert a[..0] == b[..0];
        } else {
          var n: nat :| n <= |a[1..]| && n < |b[1..]| && a[1..][..n] == b[1..][..n]
                        && (n == |a[1..]| || TextComesFirst(a[1..][n], b[1..][n]));
          assert a[..n + 1] == [a[0]] + a[1..][..n] && b[..n + 1] == [b[0]] + b[1..][..n];
        }
      }
      if PathComesFirst(a, b) {
        var n: nat :| n <= |a| && n < |b| && a[..n] == b[..n] && (n == |a| || TextComesFirst(a[n], b[n]));
        if n > 0 {
          assert a[0] == a[..n][0] == b[..n][0] == b[0];
          assert a[1..][..n - 1] == a[..n][1..] && b[1..][..n - 1] == b[..n][1..];
        }
      }
    } else if b != [] {
      assert a[..0] == b[..0];
    }
  }

  lemma {:induction false} TextOrder(a: string, b: string)
    ensures TextBefore(a, b) ==> !TextBefore(b, a) && a != b
    ensures TextBefore(a, b) || a == b || TextBefore(b, a)
  {
    if a != [] && b != [] {
      TextOrder(a[1..], b[1..]);
      assert a == [a[0]] + a[1..] && b == [b[0]] + b[1..];
    }
  }

  lemma {:induction false} TextTransitive(a: string, b: string, c: string)
    requires TextBefore(a, b) && TextBefore(b, c)
    ensures TextBefore(a, c)
  {
    if a != [] && a[0] == b[0] == c[0] {
      TextTransitive(a[1..], b[1..], c[1..]);
    }
  }

  lemma {:induction false} PathOrder(a: seq<string>, b: seq<string>)
    ensures PathBefore(a, b) ==> !PathBefore(b, a) && a != b
    ensures PathBefore(a, b) || a == b || PathBefore(b, a)
  {
    if a != [] && b != [] {
      TextOrder(a[0], b[0]);
      PathOrder(a[1..], b[1..]);
      assert a == [a[0]] + a[1..] && b == [b[0]] + b[1..];
    }
  }

  lemma {:induction false} PathTransitive(a: seq<string>, b: seq<string>, c: seq<string>)
    requires PathBefore(a, b) && PathBefore(b, c)
    ensures PathBefore(a, c)
  {
    if a != [] {
      if TextBefore(a[0], b[0]) && TextBefore(b[0], c[0]) {
        TextTransitive(a[0], b[0], c[0]);
      } else if a[0] == b[0] == c[0] {
        PathTransitive(a[1..], b[1..], c[1..]);
      }
    }
  }

  /** Keys are totally ordered: the lower priority first, then the path that comes first. */
  lemma KeyOrder(a: Key, b: Key)
    ensures Before(a, b) <==>
      a.priority < b.priority || (a.priority == b.priority && PathComesFirst(a.path, b.path))
    ensures Before(a, b) ==> !Before(b, a) && a != b
    ensures Before(a, b) || a == b || Before(b, a)
  {
    PathOrder(a.path, b.path);
    PathBeforeExactly(a.path, b.path);
  }

  lemma KeyTransitive(a: Key, b: Key, c: Key)
    requires Before(a, b) && Before(b, c)
    ensures Before(a, c)
  {
    if a.priority == b.priority == c.priority {
      PathTransitive(a.path, b.path, c.path);
    }
  }

  // ----- stable sorting

  ghost predicate IsSorted(fs: seq<CompiledFilter>) {
    forall i, j :: 0 <= i < j < |fs| ==> !Before(fs[j].SortKey(), fs[i].SortKey())
  }

  /** Lower priorities first, and within a priority the paths in their order. */
  ghost predicate IsAscending(fs: seq<CompiledFilter>) {
    && (forall i, j :: 0 <= i < j < |fs| ==> fs[i].priority <= fs[j].priority)
    && (forall i, j :: 0 <= i < j < |fs| && fs[i].priority == fs[j].priority ==>
          fs[i].path == fs[j].path || PathComesFirst(fs[i].path, fs[j].path))
  }

  lemma SortedIsAscending(fs: seq<CompiledFilter>)
    ensures IsSorted(fs) <==> IsAscending(fs)
  {
    hide Before, PathComesFirst;
    forall i, j | 0 <= i < |fs| && 0 <= j < |fs|
      ensures var a, b := fs[i].SortKey(), fs[j].SortKey();
        && (Before(a, b) ==> !Before(b, a) && a != b)
        && (Before(a, b) || a == b || Before(b, a))
        && (Before(a, b) <==> a.priority < b.priority || (a.priority == b.priority && PathComesFirst(a.path, b.path)))
    {
      KeyOrder(fs[i].SortKey(), fs[j].SortKey());
    }
  }

  /** The filters with the given key, in order. */
  function WithKey(fs: seq<CompiledFilter>, key: Key): seq<CompiledFilter> {
    if fs == [] then [] else (if fs[0].SortKey() == key then [fs[0]] else []) + WithKey(fs[1..], key)
  }

  /** Sorted, and filters with equal keys are the same and in the same order as before. */
  ghost predicate IsStableSortOf(r: seq<CompiledFilter>, fs: seq<CompiledFilter>) {
    IsSorted(r) && forall key :: WithKey(r, key) == WithKey(fs, key)
  }

  lemma {:induction false} WithKeyConcat(a: seq<CompiledFilter>, b: seq<CompiledFilter>, key: Key)
    ensures WithKey(a + b, key) == WithKey(a, key) + WithKey(b, key)
  {
    if a == [] {
      assert a + b == b;
    } else {
      assert (a + b)[1..] == a[1..] + b;
      WithKeyConcat(a[1..], b, key);
    }
  }

  lemma {:induction false} WithKeyMembers(fs: seq<CompiledFilter>, key: Key)
    ensures forall f :: multiset(WithKey(fs, key))[f] == if f.SortKey() == key then multiset(fs)[f] else 0
  {
    if fs != [] {
      WithKeyMembers(fs[1..], key);
      assert fs == [fs[0]] + fs[1..];
      assert multiset(fs) == multiset{fs[0]} + multiset(fs[1..]);
    }
  }

  /** A stable sort is a permutation. */
  lemma StableSortPermutes(r: seq<CompiledFilter>, fs: seq<CompiledFilter>)
    requires IsStableSortOf(r, fs)
    ensures multiset(r) == multiset(fs)
  {
    forall f: CompiledFilter ensures multiset(r)[f] == multiset(fs)[f] {
      WithKeyMembers(r, f.SortKey());
      WithKeyMembers(fs, f.SortKey());
    }
  }

  lemma HeadIsFirst(fs: seq<CompiledFilter>, key: Key)
    requires IsSorted(fs) && fs != [] && WithKey(fs, key) != []
    ensures !Before(key, fs[0].SortKey())
  {
    WithKeyMembers(fs, key);
    var f := WithKey(fs, key)[0];
    assert f in multiset(WithKey(fs, key));
    assert f in multiset(fs);
    var j :| 0 <= j < |fs| && fs[j] == f;
    KeyOrder(key, key);
  }

  /** There is only one stable sort of a list, whatever algorithm computes it. */
  lemma {:induction false} StableSortIsUnique(a: seq<CompiledFilter>, b: seq<CompiledFilter>)
    requires IsSorted(a) && IsSorted(b)
    requires forall key :: WithKey(a, key) == WithKey(b, key)
    ensures a == b
  {
    if a != [] {
      assert WithKey(a, a[0].SortKey()) == WithKey(b, a[0].SortKey());
    }
    if b != [] {
      assert WithKey(a, b[0].SortKey()) == WithKey(b, b[0].SortKey());
    }
    if a != [] && b != [] {
      var k, l := a[0].SortKey(), b[0].SortKey();
      assert WithKey(a, k) == WithKey(b, k) && WithKey(a, l) == WithKey(b, l);
      HeadIsFirst(a, l);
      HeadIsFirst(b, k);
      KeyOrder(k, l);
      assert WithKey(a, k)[0] == a[0] && WithKey(b, k)[0] == b[0];
      forall key ensures WithKey(a[1..], key) == WithKey(b[1..], key) {
        assert WithKey(a, key) == WithKey(b, key);
        if key == k {
          assert WithKey(a[1..], key) == WithKey(a, key)[1..];
          assert WithKey(b[1..], key) == WithKey(b, key)[1..];
        } else {
          assert [] + WithKey(a[1..], key) == WithKey(a[1..], key);
        }
      }
      StableSortIsUnique(a[1..], b[1..]);
      assert a == [a[0]] + a[1..] && b == [b[0]] + b[1..];
    }
  }

  lemma SameLoneMember(fs: seq<CompiledFilter>, gs: seq<CompiledFilter>, key: Key)
    requires multiset(fs) == multiset(gs) && |WithKey(fs, key)| <= 1
    ensures WithKey(fs, key) == WithKey(gs, key)
  {
    WithKeyMembers(fs, key);
    WithKeyMembers(gs, key);
    LoneMember(WithKey(fs, key), WithKey(gs, key));
  }

  lemma LoneMember(a: seq<CompiledFilter>, b: seq<CompiledFilter>)
    requires |a| <= 1 && forall f :: multiset(a)[f] == multiset(b)[f]
    ensures a == b
  {
    assert multiset(a) == multiset(b);
    assert |a| == |multiset(a)| && |b| == |multiset(b)|;
    if |a| == 1 {
      assert b[0] in multiset(b);
    }
  }

  /** Which order files are loaded in does not matter as long as no two share priority and path. */
  lemma LoadOrderIsIrrelevant(
      fs: seq<CompiledFilter>, gs: seq<CompiledFilter>, a: seq<CompiledFilter>, b: seq<CompiledFilter>)
    requires multiset(fs) == multiset(gs)
    requires forall key :: |WithKey(fs, key)| <= 1
    requires IsStableSortOf(a, fs) && IsStableSortOf(b, gs)
    ensures a == b
  {
    forall key ensures WithKey(a, key) == WithKey(b, key) {
      SameLoneMember(fs, gs, key);
      assert WithKey(a, key) == WithKey(fs, key) && WithKey(b, key) == WithKey(gs, key);
    }
    StableSortIsUnique(a, b);
  }

  // ----- the set of filters

  class CompiledFilterSet {
    var filters: seq<CompiledFilter>

    /** Sorts what was loaded. */
    constructor (loaded: seq<CompiledFilter>)
      ensures IsStableSortOf(filters, loaded) && IsAscending(filters)
    {
      filters := loaded;
      new;
      SortFilters();
    }

    /** Takes the filters one after the other to their place behind all that are not after them. */
    method SortFilters()
      modifies this
      ensures IsStableSortOf(filters, old(filters))
      ensures forall i, j :: 0 <= i < j < |filters| ==> filters[i].priority <= filters[j].priority
      ensures forall i, j :: 0 <= i < j < |filters| && filters[i].priority == filters[j].priority ==>
                filters[i].path == filters[j].path || PathComesFirst(filters[i].path, filters[j].path)
    {
      var loaded := filters;
      filters := [];
      for i := 0 to |loaded|
        invariant IsStableSortOf(filters, loaded[..i])
      {
        var k := |filters|;
        while k > 0 && Before(loaded[i].SortKey(), filters[k - 1].SortKey())
          invariant 0 <= k <= |filters|
          invariant forall j :: k <= j < |filters| ==> Before(loaded[i].SortKey(), filters[j].SortKey())
        {
          k := k - 1;
        }
        InsertKeepsOrder(filters, k, loaded[i], loaded[..i]);
        filters := filters[..k] + [loaded[i]] + filters[k..];
        assert loaded[..i + 1] == loaded[..i] + [loaded[i]];
      }
      assert loaded[..|loaded|] == loaded;
      SortedIsAscending(filters);
    }
  }

  lemma InsertKeepsOrder(sorted: seq<CompiledFilter>, k: nat, f: CompiledFilter, fs: seq<CompiledFilter>)
    requires IsStableSortOf(sorted, fs) && k <= |sorted|
    requires k > 0 ==> !Before(f.SortKey(), sorted[k - 1].SortKey())
    requires forall j :: k <= j < |sorted| ==> Before(f.SortKey(), sorted[j].SortKey())
    ensures IsStableSortOf(sorted[..k] + [f] + sorted[k..], fs + [f])
  {
    var r := sorted[..k] + [f] + sorted[k..];
    forall key ensures WithKey(r, key) == WithKey(fs + [f], key) {
      assert sorted == sorted[..k] + sorted[k..];
      WithKeyConcat(sorted[..k], sorted[k..], key);
      WithKeyConcat(sorted[..k] + [f], sorted[k..], key);
      WithKeyConcat(sorted[..k], [f], key);
      WithKeyConcat(fs, [f], key);
      if key == f.SortKey() {
        NoneBehind(sorted[k..], key);
      }
      assert WithKey(sorted, key) == WithKey(fs, key);
    }
    forall i, j | 0 <= i < j < |r| ensures !Before(r[j].SortKey(), r[i].SortKey()) {
      SortedAfterInsert(sorted, k, f, i, j);
    }
  }

  lemma NoneBehind(fs: seq<CompiledFilter>, key: Key)
    requires forall j :: 0 <= j < |fs| ==> Before(key, fs[j].SortKey())
    ensures WithKey(fs, key) == []
  {
    if fs != [] {
      KeyOrder(key, fs[0].SortKey());
      NoneBehind(fs[1..], key);
    }
  }

  lemma SortedAfterInsert(sorted: seq<CompiledFilter>, k: nat, f: CompiledFilter, i: nat, j: nat)
    requires IsSorted(sorted) && k <= |sorted|
    requires k > 0 ==> !Before(f.SortKey(), sorted[k - 1].SortKey())
    requires forall m :: k <= m < |sorted| ==> Before(f.SortKey(), sorted[m].SortKey())
    requires i < j <= |sorted|
    ensures
      var r := sorted[..k] + [f] + sorted[k..];
      !Before(r[j].SortKey(), r[i].SortKey())
  {
    if i == k {
      KeyOrder(f.SortKey(), sorted[j - 1].SortKey());
    } else if j == k && i < k - 1 {
      var last := sorted[k - 1].SortKey();
      KeyOrder(f.SortKey(), last);
      KeyOrder(last, sorted[i].SortKey());
      if Before(f.SortKey(), sorted[i].SortKey()) {
        if f.SortKey() != last {
          KeyTransitive(last, f.SortKey(), sorted[i].SortKey());
        }
      }
    }
  }
}
