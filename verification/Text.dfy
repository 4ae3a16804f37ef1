/** Strings as the program sees them: sequences of Unicode scalar values, with the
    standard-library operations it relies on. */
module Text {
  import opened Wrappers

  /** The Unicode White_Space property. */
  predicate IsWhitespace(c: char) {
    || '\t' <= c <= '\r' || c == ' ' || c == '\U{0085}' || c == '\U{00A0}' || c == '\U{1680}'
    || '\U{2000}' <= c <= '\U{200A}' || c == '\U{2028}' || c == '\U{2029}' || c == '\U{202F}'
    || c == '\U{205F}' || c == '\U{3000}'
  }

  /** General category Cc. */
  predicate IsControl(c: char) {
    c < ' ' || '\U{007F}' <= c <= '\U{009F}'
  }

  predicate IsHexDigit(c: char) {
    '0' <= c <= '9' || 'a' <= c <= 'f' || 'A' <= c <= 'F'
  }

  // ----- ASCII case folding

  function LowerChar(c: char): char {
    if 'A' <= c <= 'Z' then (c as int + 32) as char else c
  }

  function Lower(s: string): (r: string)
    ensures |r| == |s|
    ensures forall i :: 0 <= i < |s| ==> r[i] == LowerChar(s[i])
  {
    seq(|s|, i requires 0 <= i < |s| => LowerChar(s[i]))
  }

  predicate EqIgnoreCase(a: string, b: string) {
    Lower(a) == Lower(b)
  }

  lemma LowerTwice(s: string)
    ensures Lower(Lower(s)) == Lower(s)
  {
  }

  lemma LowerConcat(a: string, b: string)
    ensures Lower(a + b) == Lower(a) + Lower(b)
  {
  }

  // ----- searching

  predicate OccursAt(s: string, pat: string, i: nat) {
    i + |pat| <= |s| && s[i..i + |pat|] == pat
  }

  function FindFrom(s: string, pat: string, i: nat): (r: Option<nat>)
    ensures r.Some? ==> i <= r.value && OccursAt(s, pat, r.value)
    ensures r.Some? ==> forall j :: i <= j < r.value ==> !OccursAt(s, pat, j)
    ensures r.None? ==> forall j :: i <= j ==> !OccursAt(s, pat, j)
    decreases |s| - i
  {
    if i + |pat| > |s| then None
    else if OccursAt(s, pat, i) then Some(i)
    else FindFrom(s, pat, i + 1)
  }

  /** The first occurrence of `pat`. */
  function Find(s: string, pat: string): (r: Option<nat>)
    ensures r.Some? ==> OccursAt(s, pat, r.value)
    ensures r.Some? ==> forall j :: 0 <= j < r.value ==> !OccursAt(s, pat, j)
    ensures r.None? ==> forall j: nat :: !OccursAt(s, pat, j)
  {
    FindFrom(s, pat, 0)
  }

  predicate Contains(s: string, pat: string) {
    Find(s, pat).Some?
  }

  predicate EndsWith(s: string, suffix: string) {
    |suffix| <= |s| && s[|s| - |suffix|..] == suffix
  }

  function IndexFrom(s: string, c: char, i: nat): (r: Option<nat>)
    requires i <= |s|
    ensures r.Some? ==> i <= r.value < |s| && s[r.value] == c
    ensures r.Some? ==> forall j :: i <= j < r.value ==> s[j] != c
    ensures r.None? ==> forall j :: i <= j < |s| ==> s[j] != c
    decreases |s| - i
  {
    if i == |s| then None else if s[i] == c then Some(i) else IndexFrom(s, c, i + 1)
  }

  function IndexOf(s: string, c: char): (r: Option<nat>)
    ensures r.Some? ==> r.value < |s| && s[r.value] == c
    ensures r.Some? ==> forall j :: 0 <= j < r.value ==> s[j] != c
    ensures r.None? <==> c !in s
  {
    IndexFrom(s, c, 0)
  }

  lemma IndexAfter(a: string, c: char, b: string)
    requires c !in a
    ensures IndexOf(a + [c] + b, c) == Some(|a|)
    ensures (a + [c] + b)[..|a|] == a && (a + [c] + b)[|a| + 1..] == b
  {
    var s := a + [c] + b;
    assert s[|a|] == c;
    assert forall j :: 0 <= j < |a| ==> s[j] == a[j];
  }

  /** The last `c`, as `rsplit_once` finds it. */
  function LastIndexOf(s: string, c: char): (r: Option<nat>)
    ensures r.Some? ==> r.value < |s| && s[r.value] == c
    ensures r.Some? ==> forall j :: r.value < j < |s| ==> s[j] != c
    ensures r.None? <==> c !in s
  {
    if s == "" then None
    else if s[|s| - 1] == c then Some(|s| - 1)
    else assert c in s <==> c in s[..|s| - 1]; LastIndexOf(s[..|s| - 1], c)
  }

  function SplitOnce(s: string, c: char): Option<(string, string)> {
    match IndexOf(s, c)
    case None => None
    case Some(i) => Some((s[..i], s[i + 1..]))
  }

  /** The piece before the first `c`, or everything. */
  function Before(s: string, c: char): string {
    match IndexOf(s, c)
    case None => s
    case Some(i) => s[..i]
  }

  function SplitOn(s: string, c: char): (r: seq<string>)
    ensures |r| >= 1
    decreases |s|
  {
    match IndexOf(s, c)
    case None => [s]
    case Some(i) => [s[..i]] + SplitOn(s[i + 1..], c)
  }

  // ----- trimming

  function TrimStart(s: string): string {
    if s != "" && IsWhitespace(s[0]) then TrimStart(s[1..]) else s
  }

  function TrimEnd(s: string): string {
    if s != "" && IsWhitespace(s[|s| - 1]) then TrimEnd(s[..|s| - 1]) else s
  }

  function Trim(s: string): string {
    TrimEnd(TrimStart(s))
  }

  predicate IsTrimmed(s: string) {
    s == "" || (!IsWhitespace(s[0]) && !IsWhitespace(s[|s| - 1]))
  }

  lemma {:induction false} TrimStartShape(s: string) returns (k: nat)
    ensures k <= |s| && TrimStart(s) == s[k..]
    ensures forall i :: 0 <= i < k ==> IsWhitespace(s[i])
    ensures k < |s| ==> !IsWhitespace(s[k])
  {
    if s != "" && IsWhitespace(s[0]) {
      var j := TrimStartShape(s[1..]);
      k := j + 1;
      assert s[1..][j..] == s[k..];
      forall i | 0 <= i < k ensures IsWhitespace(s[i]) {
        if i > 0 { assert s[1..][i - 1] == s[i]; }
      }
    } else {
      k := 0;
    }
  }

  lemma {:induction false} TrimEndShape(s: string) returns (k: nat)
    ensures k <= |s| && TrimEnd(s) == s[..k]
    ensures forall i :: k <= i < |s| ==> IsWhitespace(s[i])
    ensures k > 0 ==> !IsWhitespace(s[k - 1])
  {
    if s != "" && IsWhitespace(s[|s| - 1]) {
      k := TrimEndShape(s[..|s| - 1]);
      assert s[..|s| - 1][..k] == s[..k];
    } else {
      k := |s|;
    }
  }

  /** Trimming keeps the stretch between the first and the last character that is not whitespace. */
  lemma TrimShape(s: string) returns (i: nat, j: nat)
    ensures i <= j <= |s| && Trim(s) == s[i..j]
    ensures IsTrimmed(Trim(s))
    ensures forall k :: 0 <= k < i || j <= k < |s| ==> IsWhitespace(s[k])
  {
    i := TrimStartShape(s);
    var n := TrimEndShape(s[i..]);
    j := i + n;
    assert s[i..][..n] == s[i..j];
    forall k | 0 <= k < i || j <= k < |s| ensures IsWhitespace(s[k]) {
      if j <= k { assert s[i..][k - i] == s[k]; }
    }
    if n > 0 {
      assert s[i..][n - 1] == s[j - 1];
    }
  }

  lemma TrimOfTrimmed(s: string)
    requires IsTrimmed(s)
    ensures Trim(s) == s
  {
  }

  lemma TrimIsTrimmed(s: string)
    ensures IsTrimmed(Trim(s))
    ensures |Trim(s)| <= |s|
    ensures forall c :: c in Trim(s) ==> c in s
  {
    var i, j := TrimShape(s);
  }

  // ----- lines

  function StripCr(line: string): string {
    if line != "" && line[|line| - 1] == '\r' then line[..|line| - 1] else line
  }

  /** `str::lines`: a line ends at "\n" or "\r\n", and a final line end opens no further line. */
  function Lines(s: string): seq<string>
    decreases |s|
  {
    if s == "" then []
    else match IndexOf(s, '\n')
      case None => [s]
      case Some(i) => [StripCr(s[..i])] + Lines(s[i + 1..])
  }

  lemma LinesCons(l: string, rest: string)
    requires '\n' !in l
    ensures Lines(l + "\n" + rest) == [StripCr(l)] + Lines(rest)
  {
    IndexAfter(l, '\n', rest);
  }

  function Unlines(ls: seq<string>): string {
    if ls == [] then "" else ls[0] + "\n" + Unlines(ls[1..])
  }

  /** No line feed inside and no carriage return at the end: what `Lines` gives back unchanged. */
  predicate IsLine(l: string) {
    '\n' !in l && StripCr(l) == l
  }

  lemma {:induction false} LinesOfUnlines(ls: seq<string>, rest: string)
    requires forall l :: l in ls ==> IsLine(l)
    ensures Lines(Unlines(ls) + rest) == ls + Lines(rest)
  {
    if ls == [] {
      assert Unlines(ls) + rest == rest;
    } else {
      var tail := Unlines(ls[1..]) + rest;
      assert IsLine(ls[0]);
      calc {
        Lines(Unlines(ls) + rest);
        { assert Unlines(ls) + rest == ls[0] + "\n" + tail; }
        Lines(ls[0] + "\n" + tail);
        { LinesCons(ls[0], tail); }
        [ls[0]] + Lines(tail);
        { LinesOfUnlines(ls[1..], rest); }
        [ls[0]] + (ls[1..] + Lines(rest));
        { assert ls == [ls[0]] + ls[1..]; }
        ls + Lines(rest);
      }
    }
  }

  lemma {:induction false} UnlinesConcat(a: seq<string>, b: seq<string>)
    ensures Unlines(a + b) == Unlines(a) + Unlines(b)
  {
    if a == [] {
      assert a + b == b;
    } else {
      assert (a + b)[1..] == a[1..] + b;
      UnlinesConcat(a[1..], b);
      assert Unlines(a) + Unlines(b) == a[0] + "\n" + (Unlines(a[1..]) + Unlines(b));
    }
  }

  /** Lines with a line feed between them and none at the end. */
  function JoinLines(ls: seq<string>): string {
    if ls == [] then "" else if |ls| == 1 then ls[0] else ls[0] + "\n" + JoinLines(ls[1..])
  }

  lemma {:induction false} LinesOfJoined(ls: seq<string>)
    requires forall i :: 0 <= i < |ls| ==> IsLine(ls[i]) && ls[i] != ""
    ensures Lines(JoinLines(ls)) == ls
  {
    if |ls| > 1 {
      LinesCons(ls[0], JoinLines(ls[1..]));
      LinesOfJoined(ls[1..]);
    }
  }

  lemma UnlinesOne(l: string)
    ensures Unlines([l]) == l + "\n"
  {
  }

  lemma UnlinesSnoc(ls: seq<string>, l: string)
    ensures Unlines(ls + [l]) == Unlines(ls) + l + "\n"
  {
    UnlinesConcat(ls, [l]);
    assert Unlines([l]) == l + "\n";
    assert Unlines(ls) + (l + "\n") == Unlines(ls) + l + "\n";
  }

  /** Text that ends its last line can be read on from there. */
  lemma {:induction false} LinesConcat(a: string, b: string)
    requires a == "" || a[|a| - 1] == '\n'
    ensures Lines(a + b) == Lines(a) + Lines(b)
    decreases |a|
  {
    if a == "" {
      assert a + b == b;
    } else {
      assert a[|a| - 1] in a;
      var i := IndexOf(a, '\n').value;
      var l, t := a[..i], a[i + 1..];
      assert '\n' !in l;
      calc {
        Lines(a + b);
        { assert a + b == l + "\n" + (t + b); }
        Lines(l + "\n" + (t + b));
        { LinesCons(l, t + b); }
        [StripCr(l)] + Lines(t + b);
        { LinesConcat(t, b); }
        [StripCr(l)] + (Lines(t) + Lines(b));
        { SeqAssoc([StripCr(l)], Lines(t), Lines(b)); }
        Lines(a) + Lines(b);
      }
    }
  }

  lemma SliceOfSlice<T>(s: seq<T>, i: nat, j: nat, k: nat, l: nat)
    requires i <= j <= |s| && k <= l <= j - i
    ensures s[i..j][k..l] == s[i + k..i + l]
  {
    var a, b := s[i..j][k..l], s[i + k..i + l];
    assert |a| == |b|;
    forall n | 0 <= n < |a| ensures a[n] == b[n] {
      assert a[n] == s[i..j][k + n] == s[i + (k + n)];
    }
  }

  lemma SeqAssoc<T>(a: seq<T>, b: seq<T>, c: seq<T>)
    ensures a + (b + c) == a + b + c
  {
  }

  /** Splitting into lines and writing them back loses exactly the carriage returns before line feeds
      and a missing final line end. */
  lemma {:induction false} LinesLossless(s: string)
    ensures Unlines(Lines(s)) == s <==> (s == "" || s[|s| - 1] == '\n') && !Contains(s, "\r\n")
    decreases |s|
  {
    var crlf := "\r\n";
    match IndexOf(s, '\n')
    case None =>
      if s != "" {
        assert Unlines([s]) == s + "\n" by { assert [s][1..] == []; }
        assert s[|s| - 1] in s;
      }
    case Some(i) =>
      var a, t := s[..i], s[i + 1..];
      assert s == (a + "\n") + t;
      assert Unlines(Lines(s)) == StripCr(a) + "\n" + Unlines(Lines(t));
      LinesLossless(t);
      CrlfSplit(a, t);
      if Unlines(Lines(s)) == s {
        SameFirstLine(StripCr(a), a, Unlines(Lines(t)), t);
        assert (StripCr(a) + "\n" + Unlines(Lines(t)))[i + 1..] == t;
        assert (StripCr(a) + "\n" + Unlines(Lines(t)))[|StripCr(a)| + 1..] == Unlines(Lines(t));
      }
  }

  lemma CrlfSplit(a: string, t: string)
    requires '\n' !in a
    ensures Contains((a + "\n") + t, "\r\n") <==> StripCr(a) != a || Contains(t, "\r\n")
  {
    var s, crlf := (a + "\n") + t, "\r\n";
    forall j: nat
      ensures OccursAt(s, crlf, j) <==>
              (j + 1 == |a| && StripCr(a) != a) || (j > |a| && OccursAt(t, crlf, j - |a| - 1))
    {
      if j > |a| {
        OccursInTail(a + "\n", t, crlf, j - |a| - 1);
      } else if j + 1 < |a| {
        assert s[j + 1] == a[j + 1] && a[j + 1] in a;
        if OccursAt(s, crlf, j) { OccursMeans(s, crlf, j, 1); }
      } else if j == |a| {
        if OccursAt(s, crlf, j) { OccursMeans(s, crlf, j, 0); }
      } else {
        assert s[j..j + 2] == [a[j], '\n'];
      }
    }
    if StripCr(a) != a { assert OccursAt(s, crlf, |a| - 1); }
    if Contains(t, crlf) { assert OccursAt(s, crlf, Find(t, crlf).value + |a| + 1); }
  }

  lemma StripCrKeeps(l: string)
    ensures forall c :: c in StripCr(l) ==> c in l
  {
  }

  lemma {:induction false} LinesAreSingle(s: string)
    ensures forall l :: l in Lines(s) ==> '\n' !in l
    decreases |s|
  {
    hide StripCr;
    if s != "" {
      match IndexOf(s, '\n')
      case None =>
      case Some(i) =>
        StripCrKeeps(s[..i]);
        LinesAreSingle(s[i + 1..]);
    }
  }

  /** Two newline-free lines that both start the same text are equal. */
  lemma SameFirstLine(w: string, l: string, x: string, y: string)
    requires '\n' !in w && '\n' !in l
    requires w + "\n" + x == l + "\n" + y
    ensures w == l
  {
    IndexAfter(w, '\n', x);
    IndexAfter(l, '\n', y);
  }

  lemma OccursInTail(a: string, b: string, pat: string, k: nat)
    ensures OccursAt(a + b, pat, |a| + k) <==> OccursAt(b, pat, k)
  {
    if k + |pat| <= |b| {
      assert (a + b)[|a| + k..|a| + k + |pat|] == b[k..k + |pat|];
    }
  }

  lemma OccursMeans(s: string, pat: string, j: nat, i: nat)
    requires OccursAt(s, pat, j) && i < |pat|
    ensures s[j + i] == pat[i]
  {
    assert s[j..j + |pat|][i] == s[j + i];
  }

  /** In lines followed by `tail`, the marker "\nw\n" cannot start before `tail` does,
      unless a line or the head of `tail` is `w`. */
  lemma {:induction false} MarkerNotInside(ls: seq<string>, w: string, tail: string, j: nat)
    requires '\n' !in w
    requires forall l :: l in ls ==> '\n' !in l && l != w
    requires !(w + "\n" <= tail)
    requires j < |Unlines(ls)|
    ensures !OccursAt(Unlines(ls) + tail, "\n" + w + "\n", j)
  {
    var l := ls[0];
    var rest := Unlines(ls[1..]) + tail;
    assert Unlines(ls) + tail == (l + "\n") + rest;
    assert l in ls;
    if j <= |l| {
      if j == |l| {
        HeadIsNot(ls[1..], w, tail);
      }
      MarkerNotInLine(l, w, rest, j);
    } else {
      OccursInTail(l + "\n", rest, "\n" + w + "\n", j - |l| - 1);
      MarkerNotInside(ls[1..], w, tail, j - |l| - 1);
    }
  }

  lemma MarkerNotInLine(l: string, w: string, rest: string, j: nat)
    requires '\n' !in l && j <= |l| && (j == |l| ==> !(w + "\n" <= rest))
    ensures !OccursAt((l + "\n") + rest, "\n" + w + "\n", j)
  {
    var text, marker := (l + "\n") + rest, "\n" + w + "\n";
    if j < |l| {
      assert text[j] == l[j];
      if OccursAt(text, marker, j) {
        OccursMeans(text, marker, j, 0);
      }
    } else if |rest| > |w| {
      SliceOfSlice(text, j, j + |marker|, 1, |marker|);
      assert marker[1..|marker|] == w + "\n";
      assert text[j + 1..j + |marker|] == rest[..|w| + 1];
    }
  }

  lemma HeadIsNot(ls: seq<string>, w: string, tail: string)
    requires '\n' !in w
    requires forall l :: l in ls ==> '\n' !in l && l != w
    requires !(w + "\n" <= tail)
    ensures !(w + "\n" <= Unlines(ls) + tail)
  {
    var text := Unlines(ls) + tail;
    if ls == [] {
      assert text == tail;
    } else if w + "\n" <= text {
      assert text == ls[0] + "\n" + (Unlines(ls[1..]) + tail);
      SameFirstLine(w, ls[0], text[|w| + 1..], Unlines(ls[1..]) + tail);
    }
  }

  // ----- pieces of a text

  lemma ContainsSlice(s: string, i: nat, j: nat)
    requires i <= j <= |s|
    ensures Contains(s, s[i..j])
  {
    assert OccursAt(s, s[i..j], i);
  }

  lemma ContainsTrans(s: string, t: string, u: string)
    requires Contains(s, t) && Contains(t, u)
    ensures Contains(s, u)
  {
    var i, j := Find(s, t).value, Find(t, u).value;
    assert OccursAt(s, t, i) && OccursAt(t, u, j);
    SliceOfSlice(s, i, i + |t|, j, j + |u|);
    assert OccursAt(s, u, i + j);
  }

  lemma ContainsTrim(s: string)
    ensures Contains(s, Trim(s))
  {
    var i, j := TrimShape(s);
    ContainsSlice(s, i, j);
  }

  lemma {:induction false} ContainsLine(s: string, l: string)
    requires l in Lines(s)
    ensures Contains(s, l)
    decreases |s|
  {
    match IndexOf(s, '\n')
    case None =>
      ContainsSlice(s, 0, |s|);
      assert s[0..|s|] == s;
    case Some(i) =>
      if l == StripCr(s[..i]) {
        assert l == s[0..|l|];
        ContainsSlice(s, 0, |l|);
      } else {
        ContainsLine(s[i + 1..], l);
        ContainsSlice(s, i + 1, |s|);
        assert s[i + 1..|s|] == s[i + 1..];
        ContainsTrans(s, s[i + 1..], l);
      }
  }

  // ----- words

  function SplitWhitespace(s: string): seq<string>
    decreases |s|
  {
    if s == "" then []
    else if IsWhitespace(s[0]) then SplitWhitespace(s[1..])
    else var n := WordLength(s); [s[..n]] + SplitWhitespace(s[n..])
  }

  /** The length of the whitespace-free prefix. */
  function WordLength(s: string): (n: nat)
    ensures n <= |s|
    ensures s != "" && !IsWhitespace(s[0]) ==> n > 0
    ensures forall i :: 0 <= i < n ==> !IsWhitespace(s[i])
    ensures n < |s| ==> IsWhitespace(s[n])
  {
    if s == "" || IsWhitespace(s[0]) then 0 else 1 + WordLength(s[1..])
  }

  predicate IsWord(w: string) {
    w != "" && forall c :: c in w ==> !IsWhitespace(c)
  }

  lemma SplitWord(w: string, rest: string)
    requires IsWord(w)
    ensures SplitWhitespace(w + " " + rest) == [w] + SplitWhitespace(rest)
  {
    var s := w + " " + rest;
    var n := WordLength(s);
    assert s[|w|] == ' ';
    assert forall i :: 0 <= i < |w| ==> s[i] == w[i] && w[i] in w;
    assert n == |w|;
    assert s[..n] == w && s[n..] == " " + rest && s[n..][1..] == rest;
  }

  lemma {:induction false} SplitOfTrimEnd(s: string)
    ensures SplitWhitespace(TrimEnd(s)) == SplitWhitespace(s)
    decreases |s|
  {
    if s != "" && IsWhitespace(s[|s| - 1]) {
      SplitDropLast(s);
      SplitOfTrimEnd(s[..|s| - 1]);
    }
  }

  lemma WordLengthIs(s: string, n: nat)
    requires n <= |s|
    requires forall i :: 0 <= i < n ==> !IsWhitespace(s[i])
    requires n < |s| ==> IsWhitespace(s[n])
    ensures WordLength(s) == n
  {
  }

  lemma SplitFirst(s: string)
    requires s != ""
    ensures SplitWhitespace(s) ==
            if IsWhitespace(s[0]) then SplitWhitespace(s[1..])
            else [s[..WordLength(s)]] + SplitWhitespace(s[WordLength(s)..])
  {
  }

  lemma SplitNothing()
    ensures SplitWhitespace("") == []
  {
  }

  lemma {:induction false} SplitDropLast(s: string)
    requires s != "" && IsWhitespace(s[|s| - 1])
    ensures SplitWhitespace(s[..|s| - 1]) == SplitWhitespace(s)
    decreases |s|
  {
    hide SplitWhitespace, IsWhitespace;
    var t := s[..|s| - 1];
    SplitNothing();
    SplitFirst(s);
    if t != "" {
      SplitFirst(t);
      if IsWhitespace(s[0]) {
        DropLastBehind(s, 1);
        SplitDropLast(s[1..]);
      } else {
        var n := WordLength(s);
        WordLengthIs(t, n);
        DropLastBehind(s, n);
        SplitDropLast(s[n..]);
      }
    }
  }

  lemma DropLastBehind(s: string, n: nat)
    requires n < |s|
    ensures s[n..][..|s[n..]| - 1] == s[..|s| - 1][n..]
    ensures s[..n] == s[..|s| - 1][..n]
  {
  }
}
