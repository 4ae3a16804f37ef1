/** The JSON grammar (RFC 8259, sections 2 to 7) as derivations and their texts. */
module Json {
  import opened Text

  predicate IsJsonSpace(c: char) {
    c == ' ' || c == '\t' || c == '\n' || c == '\r'
  }

  /** A run of insignificant whitespace. */
  predicate IsGap(s: string) {
    forall c :: c in s ==> IsJsonSpace(c)
  }

  predicate AreDigits(s: string) {
    forall c :: c in s ==> '0' <= c <= '9'
  }

  datatype StringChar =
    | Unescaped(c: char)
    | Escaped(c: char)
    | UnicodeEscaped(digits: string)
  {
    predicate IsValid() {
      match this
      case Unescaped(c) => c >= ' ' && c != '"' && c != '\\'
      case Escaped(c) => c in "\"\\/bfnrt"
      case UnicodeEscaped(digits) => |digits| == 4 && forall d :: d in digits ==> IsHexDigit(d)
    }

    function Text(): string {
      match this
      case Unescaped(c) => [c]
      case Escaped(c) => ['\\', c]
      case UnicodeEscaped(digits) => "\\u" + digits
    }
  }

  function CharsText(chars: seq<StringChar>): string {
    if chars == [] then "" else chars[0].Text() + CharsText(chars[1..])
  }

  function StringText(chars: seq<StringChar>): string {
    "\"" + (CharsText(chars) + "\"")
  }

  predicate AreValid(chars: seq<StringChar>) {
    forall c :: c in chars ==> c.IsValid()
  }

  datatype Exponent = NoExponent | Exponent(mark: char, sign: string, digits: string)

  datatype Value =
    | NullValue
    | BoolValue(b: bool)
    | NumberValue(minus: bool, whole: string, fraction: string, exponent: Exponent)
    | StringValue(chars: seq<StringChar>)
    | ArrayValue(blank: string, items: Items)
    | ObjectValue(blank: string, members: Members)
  {
    predicate IsValid() {
      match this
      case NullValue => true
      case BoolValue(_) => true
      case NumberValue(_, whole, fraction, exponent) =>
        && whole != "" && AreDigits(whole) && (whole[0] == '0' ==> |whole| == 1)
        && AreDigits(fraction)
        && (exponent.Exponent? ==>
              && (exponent.mark == 'e' || exponent.mark == 'E')
              && exponent.sign in ["", "+", "-"]
              && exponent.digits != "" && AreDigits(exponent.digits))
      case StringValue(chars) => AreValid(chars)
      case ArrayValue(blank, items) => IsGap(blank) && items.IsValid()
      case ObjectValue(blank, members) => IsGap(blank) && members.IsValid()
    }

    /** The text of a derivation; `blank` is what an empty array or object holds. */
    function Text(): string {
      match this
      case NullValue => "null"
      case BoolValue(b) => if b then "true" else "false"
      case NumberValue(minus, whole, fraction, exponent) =>
        (if minus then "-" else "") + whole + (if fraction == "" then "" else "." + fraction)
        + (match exponent case NoExponent => "" case Exponent(mark, sign, digits) => [mark] + sign + digits)
      case StringValue(chars) => StringText(chars)
      case ArrayValue(blank, items) => "[" + ((if items.NoItems? then blank else items.Text()) + "]")
      case ObjectValue(blank, members) => "{" + ((if members.NoMembers? then blank else members.Text()) + "}")
    }
  }

  datatype Items = NoItems | Items(before: string, value: Value, after: string, rest: Items) {
    predicate IsValid() {
      Items? ==> IsGap(before) && value.IsValid() && IsGap(after) && rest.IsValid()
    }

    function Text(): string {
      match this
      case NoItems => ""
      case Items(before, value, after, rest) =>
        before + (value.Text() + (after + (if rest.NoItems? then "" else "," + rest.Text())))
    }
  }

  datatype Members =
    | NoMembers
    | Members(before: string, key: seq<StringChar>, colon: (string, string), value: Value, after: string, rest: Members)
  {
    predicate IsValid() {
      Members? ==>
        && IsGap(before) && AreValid(key) && IsGap(colon.0) && IsGap(colon.1)
        && value.IsValid() && IsGap(after) && rest.IsValid()
    }

    function Text(): string {
      match this
      case NoMembers => ""
      case Members(before, key, colon, value, after, rest) =>
        before + (StringText(key) + ((colon.0 + ":" + colon.1)
          + (value.Text() + (after + (if rest.NoMembers? then "" else "," + rest.Text())))))
    }
  }
}
