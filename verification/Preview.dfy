/** The preview of a search result: a window of the line around what was found (src/tui/search.rs).
    Matches are given in bytes of UTF-8, windows are cut in characters. */
module Preview {
  import opened Wrappers
  import opened Text
  import opened Utf8

  // ----- byte positions

  lemma {:induction false} PositionsGrow(s: string, i: nat, j: nat)
    requires i <= j <= |s|
    ensures BytePosition(s, i) <= BytePosition(s, j)
    ensures i < j ==> BytePosition(s, i) < BytePosition(s, j)
  {
    if i < j {
      PositionsGrow(s, i, j - 1);
    }
  }

  function Min(a: nat, b: nat): nat {
    if a <= b then a else b
  }

  function SaturatingSub(a: nat, b: nat): nat {
    if b <= a then a - b else 0
  }

  /** How many of the positions come first that are at most `limit`, or below it if `strict`. */
  function PartitionPoint(positions: seq<nat>, limit: nat, strict: bool): (n: nat)
    ensures n <= |positions|
    ensures forall i :: 0 <= i < n ==> positions[i] <= limit && (strict ==> positions[i] < limit)
    ensures n < |positions| ==> positions[n] >= limit && (!strict ==> positions[n] > limit)
  {
    if positions == [] || positions[0] > limit || (strict && positions[0] == limit) then 0
    else 1 + PartitionPoint(positions[1..], limit, strict)
  }

  /** A piece of the line of at most `maxChars` characters. */
  predicate IsWindow(line: string, preview: string, first: nat, last: nat, maxChars: nat) {
    first <= last <= |line| && preview == line[first..last] && last - first <= maxChars
  }

  predicate IsBoundary(line: string, i: nat, position: nat) {
    i <= |line| && BytePosition(line, i) == position
  }

  /** A window on a match that fits shows the whole match. */
  ghost predicate Shows(line: string, first: nat, last: nat, matchStart: nat, matchEnd: nat, maxChars: nat) {
    forall i: nat, j: nat | IsBoundary(line, i, matchStart) && IsBoundary(line, j, matchEnd) ::
      i <= j <= i + maxChars ==> first <= i && j <= last
  }

  method TrimPreviewAroundMatch(text: string, matchStart: nat, matchEnd: nat, maxChars: nat)
    returns (preview: string, ghost first: nat, ghost last: nat)
    ensures IsWindow(Trim(text), preview, first, last, maxChars)
    ensures Shows(Trim(text), first, last, matchStart, matchEnd, maxChars)
    ensures |Trim(text)| <= maxChars ==> preview == Trim(text)
  {
    var line := Trim(text);
    if |line| <= maxChars {
      return line, 0, |line|;
    }
    var positions := CharPositions(line);
    var size := positions[|line|];

    var startChar := SaturatingSub(PartitionPoint(positions, Min(matchStart, size), false), 1);
    var endChar := Min(PartitionPoint(positions, Min(matchEnd, size), true), |positions| - 1);

    var from := SaturatingSub(startChar, maxChars / 3);
    var to := Min(from + maxChars, |positions| - 1);
    if endChar >= to {
      to := Min(endChar, |positions| - 1);
      from := SaturatingSub(to, maxChars);
    }
    forall i: nat, j: nat |
      IsBoundary(line, i, matchStart) && IsBoundary(line, j, matchEnd) && i <= j <= i + maxChars
      ensures from <= i && j <= to
    {
      FindsBoundary(line, i, matchStart);
      FindsBoundary(line, j, matchEnd);
    }
    return line[from..to], from, to;
  }

  /** Where each character begins, and where the line ends. */
  function Positions(line: string): seq<nat> {
    seq(|line| + 1, k requires 0 <= k <= |line| => BytePosition(line, k))
  }

  method CharPositions(line: string) returns (positions: seq<nat>)
    ensures positions == Positions(line)
  {
    positions := [];
    var offset := 0;
    for i := 0 to |line|
      invariant positions == Positions(line)[..i] && offset == BytePosition(line, i)
    {
      positions := positions + [offset];
      offset := offset + Utf8Width(line[i]);
    }
    positions := positions + [offset];
  }

  /** The search for a byte position that is a character boundary finds that boundary. */
  lemma FindsBoundary(line: string, i: nat, position: nat)
    requires IsBoundary(line, i, position)
    ensures position <= Positions(line)[|line|]
    ensures PartitionPoint(Positions(line), position, false) == i + 1
    ensures PartitionPoint(Positions(line), position, true) == i
  {
    var positions := Positions(line);
    PositionsGrow(line, i, |line|);
    var n, m := PartitionPoint(positions, position, false), PartitionPoint(positions, position, true);
    if n <= i {
      PositionsGrow(line, n, i);
    } else if i < |line| {
      PositionsGrow(line, i, i + 1);
      assert positions[i + 1] == BytePosition(line, i + 1);
    }
    assert positions[i] == position && (m <= |line| ==> positions[m] == BytePosition(line, m));
    if m < i {
      PositionsGrow(line, m, i);
    }
  }

  /** The preview of a line in which a plain query was found. */
  method PreviewOf(text: string, query: string, maxChars: nat) returns (preview: string)
    requires Contains(Trim(text), query)
    ensures Contains(Trim(text), preview) && |preview| <= maxChars
    ensures |query| <= maxChars ==> Contains(preview, query)
  {
    TrimIsTrimmed(text);
    TrimOfTrimmed(Trim(text));
    var line := Trim(text);
    var at := Find(line, query).value;
    var start, end := BytePosition(line, at), BytePosition(line, at + |query|);
    assert IsBoundary(line, at, start) && IsBoundary(line, at + |query|, end);
    ghost var first, last;
    preview, first, last := TrimPreviewAroundMatch(line, start, end, maxChars);
    ContainsSlice(line, first, last);
    if |query| <= maxChars {
      WindowContains(line, query, at, first, last);
    }
  }

  lemma WindowContains(line: string, query: string, at: nat, first: nat, last: nat)
    requires OccursAt(line, query, at) && first <= at && at + |query| <= last <= |line|
    ensures Contains(line[first..last], query)
  {
    var preview := line[first..last];
    var k := at - first;
    SliceOfSlice(line, first, last, k, k + |query|);
    ContainsSlice(preview, k, k + |query|);
  }
}
