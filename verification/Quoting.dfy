/** Quoted strings (src/filters/generator.rs) and their reading as TOML basic strings (TOML v1.0.0,
    section "String") and by the balance check of the filter manager (src/filters/manager.rs). */
module Quoting {
  import opened Wrappers
  import opened Text
  import opened Numbers

  function EscapeChar(c: char): string {
    if c == '\\' then "\\\\"
    else if c == '"' then "\\\""
    else if c == '\n' then "\\n"
    else if c == '\r' then "\\r"
    else if c == '\t' then "\\t"
    else if IsControl(c) then "\\u{" + Digits(c as int, 16) + "}"
    else [c]
  }

  function Escape(v: string): string {
    if v == "" then "" else EscapeChar(v[0]) + Escape(v[1..])
  }

  function Quoted(v: string): string {
    "\"" + Escape(v) + "\""
  }

  lemma {:induction false} EscapeSnoc(v: string, c: char)
    ensures Escape(v + [c]) == Escape(v) + EscapeChar(c)
  {
    if v == "" {
      assert (v + [c])[1..] == "";
      assert EscapeChar(c) + "" == EscapeChar(c) == "" + EscapeChar(c);
    } else {
      assert (v + [c])[1..] == v[1..] + [c];
      EscapeSnoc(v[1..], c);
    }
  }

  method QuotedString(value: string) returns (out: string)
    ensures out == Quoted(value)
  {
    out := "\"";
    for i := 0 to |value|
      invariant out == "\"" + Escape(value[..i])
    {
      QuoteMore(value, i);
      out := out + EscapeChar(value[i]);
    }
    assert value[..|value|] == value;
    out := out + "\"";
  }

  lemma QuoteMore(value: string, i: nat)
    requires i < |value|
    ensures "\"" + Escape(value[..i]) + EscapeChar(value[i]) == "\"" + Escape(value[..i + 1])
  {
    assert value[..i + 1] == value[..i] + [value[i]];
    EscapeSnoc(value[..i], value[i]);
    SeqAssoc("\"", Escape(value[..i]), EscapeChar(value[i]));
  }

  // ----- reading it as a TOML basic string

  function SimpleEscape(c: char): Option<char> {
    match c
    case 'b' => Some('\U{0008}')
    case 't' => Some('\t')
    case 'n' => Some('\n')
    case 'f' => Some('\U{000C}')
    case 'r' => Some('\r')
    case '"' => Some('"')
    case '\\' => Some('\\')
    case _ => None
  }

  /** The character of a "\u" or "\U" escape with its hexadecimal digits. */
  function UnicodeEscape(digits: string): Option<char> {
    if exists c :: c in digits && !IsHexDigit(c) then None
    else match Value(digits, 16)
      case Some(n) => if n < 0xD800 || 0xE000 <= n < 0x11_0000 then Some(n as char) else None
      case None => None
  }

  /** The text between the quotes of a basic string. A quote or a control character other than tab
      has to be escaped. */
  function Unescape(t: string): Option<string>
    decreases |t|
  {
    if t == "" then Some("")
    else if t[0] == '\\' then
      if |t| < 2 then None
      else if t[1] == 'u' || t[1] == 'U' then
        var n := if t[1] == 'u' then 4 else 8;
        if |t| < 2 + n then None
        else match (UnicodeEscape(t[2..2 + n]), Unescape(t[2 + n..]))
          case (Some(c), Some(rest)) => Some([c] + rest)
          case _ => None
      else match (SimpleEscape(t[1]), Unescape(t[2..]))
        case (Some(c), Some(rest)) => Some([c] + rest)
        case _ => None
    else if t[0] == '"' || (t[0] != '\t' && (t[0] < ' ' || t[0] == '\U{007F}')) then None
    else match Unescape(t[1..])
      case Some(rest) => Some([t[0]] + rest)
      case None => None
  }

  function TomlString(s: string): Option<string> {
    if |s| < 2 || s[0] != '"' || s[|s| - 1] != '"' then None else Unescape(s[1..|s| - 1])
  }

  /** Line feed, carriage return and tab have an escape that TOML knows; other controls do not. */
  predicate IsWritable(c: char) {
    !IsControl(c) || c == '\n' || c == '\r' || c == '\t'
  }

  lemma UnescapeSimple(c: char, e: char, rest: string)
    requires e != 'u' && e != 'U' && SimpleEscape(e) == Some(c)
    ensures Unescape(['\\', e] + rest) ==
            match Unescape(rest) case None => None case Some(r) => Some([c] + r)
  {
    assert (['\\', e] + rest)[2..] == rest;
  }

  lemma UnescapeChar(c: char, rest: string)
    ensures Unescape(EscapeChar(c) + rest) ==
            if IsWritable(c) then (match Unescape(rest) case None => None case Some(r) => Some([c] + r)) else None
  {
    if c == '\\' { UnescapeSimple(c, '\\', rest); }
    else if c == '"' { UnescapeSimple(c, '"', rest); }
    else if c == '\n' { UnescapeSimple(c, 'n', rest); }
    else if c == '\r' { UnescapeSimple(c, 'r', rest); }
    else if c == '\t' { UnescapeSimple(c, 't', rest); }
    else if IsControl(c) {
      var digits := Digits(c as int, 16);
      assert "\\u{" + digits + "}" + rest == "\\u{" + (digits + "}") + rest;
      BracedEscapeFails(digits + "}", rest);
    }
    else { assert ([c] + rest)[1..] == rest; }
  }

  /** "\u{" is no TOML escape. */
  lemma BracedEscapeFails(digits: string, rest: string)
    ensures Unescape("\\u{" + digits + rest) == None
  {
    var t := "\\u{" + digits + rest;
    assert t[0] == '\\' && t[1] == 'u' && t[2] == '{';
    if |t| >= 6 {
      assert t[2..6][0] == '{';
      assert !IsHexDigit(t[2..6][0]);
    }
  }

  /** A quoted string reads back as the value exactly when the value has no control character other
      than line feed, carriage return and tab. */
  lemma {:induction false} UnescapeOfEscape(v: string)
    ensures Unescape(Escape(v)) == if forall c :: c in v ==> IsWritable(c) then Some(v) else None
  {
    if v != "" {
      UnescapeChar(v[0], Escape(v[1..]));
      UnescapeOfEscape(v[1..]);
      assert v == [v[0]] + v[1..];
    }
  }

  lemma TomlReadsQuoted(v: string)
    ensures TomlString(Quoted(v)) == Some(v) <==> forall c :: c in v ==> IsWritable(c)
    ensures TomlString(Quoted(v)).None? <==> exists c :: c in v && !IsWritable(c)
  {
    assert Quoted(v)[1..|Quoted(v)| - 1] == Escape(v);
    UnescapeOfEscape(v);
  }

  // ----- the balance check

  /** Whether the scan of a metadata line ends inside a string. */
  function EndsInString(line: string, inString: bool, escaped: bool): bool {
    if line == "" then inString
    else if escaped then EndsInString(line[1..], inString, false)
    else if line[0] == '\\' && inString then EndsInString(line[1..], inString, true)
    else if line[0] == '"' then EndsInString(line[1..], !inString, false)
    else EndsInString(line[1..], inString, false)
  }

  predicate IsBalanced(line: string) {
    !EndsInString(line, false, false)
  }

  method ValidateFrontMatterLine(line: string) returns (ok: bool)
    ensures ok == IsBalanced(line)
  {
    var inString, escaped := false, false;
    for i := 0 to |line|
      invariant EndsInString(line[i..], inString, escaped) == EndsInString(line, false, false)
    {
      var ch := line[i];
      assert line[i..][1..] == line[i + 1..];
      if escaped {
        escaped := false;
        continue;
      }
      if ch == '\\' && inString {
        escaped := true;
      } else if ch == '"' {
        inString := !inString;
      }
    }
    assert line[|line|..] == "";
    ok := !inString;
  }

  lemma {:induction false} ScanPlain(a: string, rest: string, inString: bool)
    requires '"' !in a && '\\' !in a
    ensures EndsInString(a + rest, inString, false) == EndsInString(rest, inString, false)
  {
    if a == "" {
      assert a + rest == rest;
    } else {
      assert a[0] in a && (a + rest)[1..] == a[1..] + rest;
      ScanPlain(a[1..], rest, inString);
    }
  }

  /** A backslash inside a string takes the next character with it. */
  lemma ScanEscaped(x: char, tail: string, rest: string)
    requires '"' !in tail && '\\' !in tail
    ensures EndsInString(['\\', x] + tail + rest, true, false) == EndsInString(rest, true, false)
  {
    var t := ['\\', x] + tail + rest;
    assert t[1..][1..] == tail + rest;
    ScanPlain(tail, rest, true);
  }

  lemma ScanChar(c: char, rest: string)
    ensures EndsInString(EscapeChar(c) + rest, true, false) == EndsInString(rest, true, false)
  {
    var e := EscapeChar(c);
    if e[0] == '\\' && |e| == 2 {
      assert e == ['\\', e[1]] + "";
      ScanEscaped(e[1], "", rest);
    } else if e[0] == '\\' {
      var digits := Digits(c as int, 16);
      DigitsAreDigits(c as int, 16);
      var tail := "{" + digits + "}";
      assert "\\u{" + digits + "}" == ['\\', 'u'] + tail;
      ScanEscaped('u', tail, rest);
    } else {
      ScanPlain([c], rest, true);
    }
  }

  lemma {:induction false} ScanEscape(v: string, rest: string)
    ensures EndsInString(Escape(v) + rest, true, false) == EndsInString(rest, true, false)
  {
    if v == "" {
      assert Escape(v) + rest == rest;
    } else {
      assert Escape(v) + rest == EscapeChar(v[0]) + (Escape(v[1..]) + rest);
      ScanChar(v[0], Escape(v[1..]) + rest);
      ScanEscape(v[1..], rest);
    }
  }

  /** Whatever it contains, a quoted string leaves the scan outside a string again. */
  lemma ScanQuoted(v: string, rest: string)
    ensures EndsInString(Quoted(v) + rest, false, false) == EndsInString(rest, false, false)
  {
    var t := Quoted(v) + rest;
    assert t[0] == '"' && t[1..] == Escape(v) + ("\"" + rest);
    ScanEscape(v, "\"" + rest);
    assert ("\"" + rest)[1..] == rest;
  }

  // ----- a quoted string stays on one line

  lemma {:induction false} EscapeHasNoControls(v: string)
    ensures forall c :: c in Escape(v) ==> !IsControl(c)
  {
    if v != "" {
      EscapeHasNoControls(v[1..]);
      if IsControl(v[0]) { DigitsAreDigits(v[0] as int, 16); }
    }
  }

  lemma QuotedHasNoControls(v: string)
    ensures forall c :: c in Quoted(v) ==> !IsControl(c)
  {
    EscapeHasNoControls(v);
  }
}
