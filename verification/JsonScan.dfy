/** Finding the headers JSON in the detail text (src/tui/editor_pane.rs) by counting one kind of
    bracket, compared with the JSON grammar. */
module JsonScan {
  import opened Wrappers
  import opened Text
  import opened Json

  // ----- the scan

  /** The kind of bracket that is counted, by its opening character. */
  datatype Bracket = Square | Curly {
    function Open(): char {
      if Square? then '[' else '{'
    }

    function Close(): char {
      if Square? then ']' else '}'
    }
  }

  datatype State = State(depth: nat, inString: bool, escaped: bool)

  const START := State(0, false, false)

  /** One character of the scan; no state means that the text ends here. */
  function Step(b: Bracket, st: State, c: char): Option<State> {
    if st.escaped then Some(st.(escaped := false))
    else if st.inString then
      Some(if c == '\\' then st.(escaped := true) else if c == '"' then st.(inString := false) else st)
    else if c == '"' then Some(st.(inString := true))
    else if c == b.Open() then Some(st.(depth := st.depth + 1))
    else if c == b.Close() then
      if st.depth <= 1 then None else Some(st.(depth := st.depth - 1))
    else Some(st)
  }

  /** How many characters up to and including the one that closes the first bracket. */
  function Scan(b: Bracket, st: State, text: string): (n: Option<nat>)
    ensures n.Some? ==> 0 < n.value <= |text|
    decreases |text|
  {
    if text == "" then None
    else match Step(b, st, text[0])
      case None => Some(1)
      case Some(next) => Shift(Scan(b, next, text[1..]), 1)
  }

  function Shift(n: Option<nat>, d: nat): Option<nat> {
    match n
    case None => None
    case Some(k) => Some(k + d)
  }

  function BracketOf(text: string): Option<Bracket> {
    if text == "" then None
    else if text[0] == '[' then Some(Square)
    else if text[0] == '{' then Some(Curly)
    else None
  }

  function BalancedPrefix(text: string): Option<string> {
    match BracketOf(text)
    case None => None
    case Some(b) =>
      match Scan(b, START, text)
      case None => None
      case Some(n) => Some(text[..n])
  }

  method ScanBrackets(text: string) returns (r: Option<string>)
    ensures r == BalancedPrefix(text)
  {
    var bracket := BracketOf(text);
    if bracket.None? {
      return None;
    }
    var opening, closing := bracket.value.Open(), bracket.value.Close();
    var depth: nat := 0;
    var inString, escaped := false, false;
    assert text[0..] == text;
    for idx := 0 to |text|
      invariant Scan(bracket.value, START, text) ==
                Shift(Scan(bracket.value, State(depth, inString, escaped), text[idx..]), idx)
    {
      var ch := text[idx];
      ScanStep(bracket.value, State(depth, inString, escaped), text, idx);
      if escaped {
        escaped := false;
        continue;
      }
      if inString {
        if ch == '\\' {
          escaped := true;
        } else if ch == '"' {
          inString := false;
        }
        continue;
      }
      if ch == '"' {
        inString := true;
      } else if ch == opening {
        depth := depth + 1;
      } else if ch == closing {
        depth := if depth == 0 then 0 else depth - 1;
        if depth == 0 {
          return Some(text[..idx + 1]);
        }
      }
    }
    return None;
  }

  /** One round of the loop. */
  lemma ScanStep(b: Bracket, st: State, text: string, i: nat)
    requires i < |text|
    ensures Shift(Scan(b, st, text[i..]), i) ==
            match Step(b, st, text[i])
            case None => Some(i + 1)
            case Some(next) => Shift(Scan(b, next, text[i + 1..]), i + 1)
  {
    assert text[i..][1..] == text[i + 1..];
  }

  // ----- the scan passes over grammatical pieces

  predicate PassesBefore(b: Bracket, st: State, a: string, rest: string) {
    Scan(b, st, a + rest) == Shift(Scan(b, st, rest), |a|)
  }

  /** Scanning `a` in state `st` ends nowhere and comes back to `st`. */
  ghost predicate Passes(b: Bracket, st: State, a: string) {
    forall rest :: PassesBefore(b, st, a, rest)
  }

  lemma PassesConcat(b: Bracket, st: State, x: string, y: string)
    requires Passes(b, st, x) && Passes(b, st, y)
    ensures Passes(b, st, x + y)
  {
    forall rest ensures PassesBefore(b, st, x + y, rest) {
      assert x + y + rest == x + (y + rest);
      assert PassesBefore(b, st, x, y + rest);
      assert PassesBefore(b, st, y, rest);
    }
  }

  lemma NothingPasses(b: Bracket, st: State)
    ensures Passes(b, st, "")
  {
    forall rest ensures PassesBefore(b, st, "", rest) { assert "" + rest == rest; }
  }

  lemma OnePasses(b: Bracket, st: State, c: char)
    requires Step(b, st, c) == Some(st)
    ensures Passes(b, st, [c])
  {
    forall rest ensures PassesBefore(b, st, [c], rest) { ScanCons(b, st, c, rest); }
  }

  lemma ScanCons(b: Bracket, st: State, c: char, rest: string)
    ensures Scan(b, st, [c] + rest) ==
            match Step(b, st, c) case None => Some(1) case Some(next) => Shift(Scan(b, next, rest), 1)
  {
    assert ([c] + rest)[1..] == rest;
  }

  predicate IsPlain(a: string) {
    forall c :: c in a ==> c !in "\"[]{}"
  }

  lemma {:induction false} PlainPasses(b: Bracket, depth: nat, a: string)
    requires IsPlain(a)
    ensures Passes(b, State(depth, false, false), a)
  {
    var st := State(depth, false, false);
    if a == "" {
      NothingPasses(b, st);
    } else {
      assert a[0] in a;
      OnePasses(b, st, a[0]);
      PlainPasses(b, depth, a[1..]);
      PassesConcat(b, st, [a[0]], a[1..]);
      assert [a[0]] + a[1..] == a;
    }
  }

  lemma EscapePasses(b: Bracket, depth: nat, c: char)
    ensures Passes(b, State(depth, true, false), ['\\', c])
  {
    var st := State(depth, true, false);
    forall rest ensures PassesBefore(b, st, ['\\', c], rest) {
      assert ['\\', c] + rest == ['\\'] + ([c] + rest);
      ScanCons(b, st, '\\', [c] + rest);
      ScanCons(b, st.(escaped := true), c, rest);
    }
  }

  /** Inside a string, one grammatical character at a time. */
  lemma CharPasses(b: Bracket, depth: nat, c: StringChar)
    requires c.IsValid()
    ensures Passes(b, State(depth, true, false), c.Text())
  {
    var st := State(depth, true, false);
    match c
    case Unescaped(x) => OnePasses(b, st, x);
    case Escaped(x) => EscapePasses(b, depth, x);
    case UnicodeEscaped(digits) =>
      EscapePasses(b, depth, 'u');
      DigitsPass(b, depth, digits);
      PassesConcat(b, st, "\\u", digits);
  }

  lemma {:induction false} DigitsPass(b: Bracket, depth: nat, digits: string)
    requires forall d :: d in digits ==> IsHexDigit(d)
    ensures Passes(b, State(depth, true, false), digits)
  {
    var st := State(depth, true, false);
    if digits == "" {
      NothingPasses(b, st);
    } else {
      assert digits[0] in digits;
      OnePasses(b, st, digits[0]);
      DigitsPass(b, depth, digits[1..]);
      PassesConcat(b, st, [digits[0]], digits[1..]);
      assert [digits[0]] + digits[1..] == digits;
    }
  }

  lemma {:induction false} CharsPass(b: Bracket, depth: nat, chars: seq<StringChar>)
    requires AreValid(chars)
    ensures Passes(b, State(depth, true, false), CharsText(chars))
  {
    var st := State(depth, true, false);
    if chars == [] {
      NothingPasses(b, st);
    } else {
      assert chars[0] in chars;
      CharPasses(b, depth, chars[0]);
      CharsPass(b, depth, chars[1..]);
      PassesConcat(b, st, chars[0].Text(), CharsText(chars[1..]));
    }
  }

  /** A piece between two characters that switch to another state and back. */
  lemma EnclosedPasses(b: Bracket, st: State, inner: State, open: char, content: string, close: char)
    requires Step(b, st, open) == Some(inner) && Step(b, inner, close) == Some(st)
    requires Passes(b, inner, content)
    ensures Passes(b, st, [open] + (content + [close]))
  {
    forall rest ensures PassesBefore(b, st, [open] + (content + [close]), rest) {
      var tail := [close] + rest;
      assert [open] + (content + [close]) + rest == [open] + (content + tail);
      ScanCons(b, st, open, content + tail);
      assert PassesBefore(b, inner, content, tail);
      ScanCons(b, inner, close, rest);
    }
  }

  lemma StringPasses(b: Bracket, depth: nat, chars: seq<StringChar>)
    requires AreValid(chars)
    ensures Passes(b, State(depth, false, false), StringText(chars))
  {
    CharsPass(b, depth, chars);
    EnclosedPasses(b, State(depth, false, false), State(depth, true, false), '"', CharsText(chars), '"');
  }

  /** A bracketed piece, counted or not, passes at any depth at which its content does. */
  lemma BracketedPasses(b: Bracket, depth: nat, own: Bracket, content: string)
    requires depth >= 1
    requires Passes(b, State(if own == b then depth + 1 else depth, false, false), content)
    ensures Passes(b, State(depth, false, false), [own.Open()] + (content + [own.Close()]))
  {
    var inner := State(if own == b then depth + 1 else depth, false, false);
    EnclosedPasses(b, State(depth, false, false), inner, own.Open(), content, own.Close());
  }

  lemma NumberIsPlain(v: Value)
    requires v.NumberValue? && v.IsValid()
    ensures IsPlain(v.Text())
  {
  }

  /** Every value passes inside a counted bracket, although other brackets are not counted. */
  lemma {:induction false} ValuePasses(b: Bracket, depth: nat, v: Value)
    requires depth >= 1 && v.IsValid()
    ensures Passes(b, State(depth, false, false), v.Text())
    decreases v
  {
    match v
    case NullValue => PlainPasses(b, depth, "null");
    case BoolValue(x) => PlainPasses(b, depth, if x then "true" else "false");
    case NumberValue(_, _, _, _) =>
      NumberIsPlain(v);
      PlainPasses(b, depth, v.Text());
    case StringValue(chars) => StringPasses(b, depth, chars);
    case ArrayValue(blank, items) =>
      var inner := if b == Square then depth + 1 else depth;
      PlainPasses(b, inner, blank);
      ItemsPass(b, inner, items);
      BracketedPasses(b, depth, Square, if items.NoItems? then blank else items.Text());
    case ObjectValue(blank, members) =>
      var inner := if b == Curly then depth + 1 else depth;
      PlainPasses(b, inner, blank);
      MembersPass(b, inner, members);
      BracketedPasses(b, depth, Curly, if members.NoMembers? then blank else members.Text());
  }

  lemma {:induction false} ItemsPass(b: Bracket, depth: nat, items: Items)
    requires depth >= 1 && items.IsValid()
    ensures Passes(b, State(depth, false, false), items.Text())
    decreases items
  {
    var st := State(depth, false, false);
    match items
    case NoItems => PlainPasses(b, depth, "");
    case Items(before, value, after, rest) =>
      PlainPasses(b, depth, before);
      ValuePasses(b, depth, value);
      PlainPasses(b, depth, after);
      ItemsPass(b, depth, rest);
      PlainPasses(b, depth, ",");
      PlainPasses(b, depth, "");
      PassesConcat(b, st, ",", rest.Text());
      var tail := if rest.NoItems? then "" else "," + rest.Text();
      PassesConcat(b, st, after, tail);
      PassesConcat(b, st, value.Text(), after + tail);
      PassesConcat(b, st, before, value.Text() + (after + tail));
  }

  lemma {:induction false} MembersPass(b: Bracket, depth: nat, members: Members)
    requires depth >= 1 && members.IsValid()
    ensures Passes(b, State(depth, false, false), members.Text())
    decreases members
  {
    var st := State(depth, false, false);
    match members
    case NoMembers => PlainPasses(b, depth, "");
    case Members(before, key, colon, value, after, rest) =>
      PlainPasses(b, depth, before);
      StringPasses(b, depth, key);
      PlainPasses(b, depth, colon.0 + ":" + colon.1);
      ValuePasses(b, depth, value);
      PlainPasses(b, depth, after);
      MembersPass(b, depth, rest);
      PlainPasses(b, depth, ",");
      PlainPasses(b, depth, "");
      PassesConcat(b, st, ",", rest.Text());
      var tail := if rest.NoMembers? then "" else "," + rest.Text();
      PassesConcat(b, st, after, tail);
      PassesConcat(b, st, value.Text(), after + tail);
      PassesConcat(b, st, colon.0 + ":" + colon.1, value.Text() + (after + tail));
      PassesConcat(b, st, StringText(key), (colon.0 + ":" + colon.1) + (value.Text() + (after + tail)));
      PassesConcat(b, st, before, StringText(key) + ((colon.0 + ":" + colon.1) + (value.Text() + (after + tail))));
  }

  // ----- the whole text

  lemma ScanBracketed(b: Bracket, content: string, suffix: string)
    requires Passes(b, State(1, false, false), content)
    ensures BalancedPrefix([b.Open()] + (content + [b.Close()]) + suffix) == Some([b.Open()] + (content + [b.Close()]))
  {
    var text := [b.Open()] + (content + [b.Close()]);
    var close := [b.Close()] + suffix;
    assert text + suffix == [b.Open()] + (content + close);
    ScanCons(b, START, b.Open(), content + close);
    assert PassesBefore(b, State(1, false, false), content, close);
    ScanCons(b, State(1, false, false), b.Close(), suffix);
    assert (text + suffix)[..|text|] == text;
  }

  /** The scan returns exactly the array or object a text starts with, whatever follows. */
  lemma ScanFindsJson(v: Value, suffix: string)
    requires v.IsValid() && (v.ArrayValue? || v.ObjectValue?)
    ensures BalancedPrefix(v.Text() + suffix) == Some(v.Text())
  {
    match v
    case ArrayValue(blank, items) =>
      PlainPasses(Square, 1, blank);
      ItemsPass(Square, 1, items);
      ScanBracketed(Square, if items.NoItems? then blank else items.Text(), suffix);
    case ObjectValue(blank, members) =>
      PlainPasses(Curly, 1, blank);
      MembersPass(Curly, 1, members);
      ScanBracketed(Curly, if members.NoMembers? then blank else members.Text(), suffix);
  }

  // ----- finding the headers in the detail text

  /** What stands before the first colon of a line, or the whole line. */
  function LineName(line: string): string {
    match SplitOnce(line, ':')
    case None => Trim(line)
    case Some(kv) => Trim(kv.0)
  }

  predicate NamesHeaders(line: string) {
    LineName(line) == "headers"
  }

  /** Where the line named "headers" starts, counting one character for every line end. */
  function HeadersStart(lines: seq<string>, offset: nat): Option<nat> {
    if lines == [] then None
    else if NamesHeaders(lines[0]) then Some(offset)
    else HeadersStart(lines[1..], offset + |lines[0]| + 1)
  }

  function BracketFrom(text: string, i: nat): (r: Option<nat>)
    ensures r.Some? ==> i <= r.value < |text|
    decreases |text| - i
  {
    if i >= |text| then None
    else if text[i] == '[' || text[i] == '{' then Some(i)
    else BracketFrom(text, i + 1)
  }

  function ExtractHeadersJson(meta: string): Option<string> {
    match HeadersStart(Lines(meta), 0)
    case None => None
    case Some(start) =>
      match BracketFrom(meta, start)
      case None => None
      case Some(i) => BalancedPrefix(meta[i..])
  }

  lemma HeadersStartBehind(first: string, more: seq<string>, offset: nat)
    requires !NamesHeaders(first)
    ensures HeadersStart([first] + more, offset) == HeadersStart(more, offset + |first| + 1)
  {
    assert ([first] + more)[1..] == more;
  }

  lemma UnlinesLength(first: string, more: seq<string>)
    ensures |Unlines([first] + more)| == |first| + 1 + |Unlines(more)|
  {
    assert ([first] + more)[1..] == more;
  }

  lemma {:induction false} HeadersStartAt(before: seq<string>, rest: seq<string>, offset: nat)
    requires forall l :: l in before ==> !NamesHeaders(l)
    requires rest != [] && NamesHeaders(rest[0])
    ensures HeadersStart(before + rest, offset) == Some(offset + |Unlines(before)|)
    decreases |before|
  {
    hide NamesHeaders;
    if before == [] {
      assert before + rest == rest;
    } else {
      hide HeadersStart, Unlines;
      var first, more := before[0], before[1..];
      assert first in before && before == [first] + more;
      assert before + rest == [first] + (more + rest);
      HeadersStartBehind(first, more + rest, offset);
      HeadersStartAt(more, rest, offset + |first| + 1);
      UnlinesLength(first, more);
    }
  }

  lemma {:induction false} NoBracketUntil(text: string, i: nat, j: nat)
    requires i <= j < |text| && (text[j] == '[' || text[j] == '{')
    requires forall k :: i <= k < j ==> text[k] != '[' && text[k] != '{'
    ensures BracketFrom(text, i) == Some(j)
    decreases j - i
  {
    if i < j { NoBracketUntil(text, i + 1, j); }
  }

  lemma PieceAt(a: string, mid: string, tail: string)
    ensures forall k :: |a| <= k < |a| + |mid| ==> (a + (mid + tail))[k] == mid[k - |a|]
    ensures tail != "" ==> (a + (mid + tail))[|a| + |mid|] == tail[0]
    ensures (a + (mid + tail))[|a| + |mid|..] == tail
  {
  }

  lemma BracketBehind(a: string, mid: string, tail: string)
    requires tail != "" && (tail[0] == '[' || tail[0] == '{')
    requires '[' !in mid && '{' !in mid
    ensures BracketFrom(a + (mid + tail), |a|) == Some(|a| + |mid|)
  {
    PieceAt(a, mid, tail);
    NoBracketUntil(a + (mid + tail), |a|, |a| + |mid|);
  }

  lemma HeadersStartOf(before: seq<string>, line: string, rest: seq<string>, lines: seq<string>)
    requires forall l :: l in before ==> !NamesHeaders(l)
    requires NamesHeaders(line) && lines == before + ([line] + rest)
    ensures HeadersStart(lines, 0) == Some(|Unlines(before)|)
  {
    HeadersStartAt(before, [line] + rest, 0);
  }

  lemma LinesAround(before: seq<string>, line: string, rest: string)
    requires forall l :: l in before ==> IsLine(l)
    requires IsLine(line)
    ensures Lines(Unlines(before) + (line + "\n" + rest)) == before + ([line] + Lines(rest))
  {
    LinesOfUnlines(before, line + "\n" + rest);
    LinesCons(line, rest);
  }

  lemma BracketFirst(v: Value)
    requires v.ArrayValue? || v.ObjectValue?
    ensures v.Text() != "" && (v.Text()[0] == '[' || v.Text()[0] == '{')
  {
  }

  lemma ExtractFrom(meta: string, start: nat, i: nat, json: string)
    requires HeadersStart(Lines(meta), 0) == Some(start) && BracketFrom(meta, start) == Some(i)
    requires BalancedPrefix(meta[i..]) == Some(json)
    ensures ExtractHeadersJson(meta) == Some(json)
  {
  }

  /** Behind clean lines with other names, the JSON after the "headers" line is found and returned
      exactly, provided no bracket stands between. */
  lemma HeadersJsonIsFound(before: seq<string>, line: string, gap: string, v: Value, suffix: string)
    requires forall l :: l in before ==> IsLine(l) && !NamesHeaders(l)
    requires IsLine(line) && NamesHeaders(line)
    requires '[' !in line && '{' !in line && '[' !in gap && '{' !in gap
    requires v.IsValid() && (v.ArrayValue? || v.ObjectValue?)
    ensures ExtractHeadersJson(Unlines(before) + (line + "\n" + (gap + (v.Text() + suffix)))) == Some(v.Text())
  {
    hide NamesHeaders, BracketFrom, BalancedPrefix, HeadersStart, ExtractHeadersJson, Lines, IsLine;
    var tail := v.Text() + suffix;
    var meta := Unlines(before) + (line + "\n" + (gap + tail));
    var mid := line + "\n" + gap;
    LinesAround(before, line, gap + tail);
    HeadersStartOf(before, line, Lines(gap + tail), Lines(meta));
    SeqAssoc(line + "\n", gap, tail);
    BracketFirst(v);
    BracketBehind(Unlines(before), mid, tail);
    PieceAt(Unlines(before), mid, tail);
    ScanFindsJson(v, suffix);
    ExtractFrom(meta, |Unlines(before)|, |Unlines(before)| + |mid|, v.Text());
  }
}
