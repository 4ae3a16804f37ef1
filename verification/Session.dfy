/** An editing session (src/filters/editor.rs): the original message, the text being edited, and the
    filter generated from it. */
module Session {
  import opened Wrappers
  import opened Text
  import opened Messages
  import opened EditRoundTrip
  import opened BodyRewrite
  import opened Edits
  import opened Generator

  datatype Error =
    | ParseFailed(error: ParseError)
    | NoChanges
    | WrongMessageKind(expected: Kind, actual: Kind)
    | MissingResponseStatus

  /** The filter a session with this text would generate; `request` is the context of a response. */
  function Generate(
    a: Analysis, kind: Kind, name: string, mark: string, request: Message, original: Message, text: string)
    : Result<GeneratedFilter, Error>
  {
    match Parse(text, Some(original))
    case Err(e) => Err(ParseFailed(e))
    case Ok(edited) =>
      if edited.kind != kind then Err(WrongMessageKind(kind, edited.kind))
      else if kind.Response? && edited.status.None? then Err(MissingResponseStatus)
      else
        match (if kind.Request? then ExtractRequestFilter(a, name, mark, original, edited)
               else ExtractResponseFilter(a, name, mark, request, original, edited))
        case None => Err(NoChanges)
        case Some(f) => Ok(f)
  }

  class EditSession {
    const kind: Kind
    const request: Message
    const original: Message
    var name: string
    var editedText: string

    constructor (kind: Kind, name: string, request: Message, original: Message)
      ensures this.kind == kind && this.request == request && this.original == original
      ensures this.name == name && editedText == EditText(original)
    {
      this.kind, this.request, this.original, this.name := kind, request, original, name;
      new;
      editedText := ToEditText(original);
    }

    method SetEditedText(text: string)
      modifies `editedText
      ensures editedText == text
    {
      editedText := text;
    }

    method Reset()
      modifies `editedText
      ensures editedText == EditText(original)
    {
      editedText := ToEditText(original);
    }

    method HasChanges() returns (r: Result<bool, Error>)
      ensures r == match Parse(editedText, Some(original))
                   case Err(e) => Err(ParseFailed(e))
                   case Ok(edited) => Ok(DiffOf(original, edited).HasChanges())
    {
      var edited := ParseEditText(editedText, Some(original));
      match edited
      case Err(e) => r := Err(ParseFailed(e));
      case Ok(m) => r := Ok(DiffOf(original, m).HasChanges());
    }

    method GenerateFilter(a: Analysis, mark: string) returns (r: Result<GeneratedFilter, Error>)
      ensures r == Generate(a, kind, name, mark, request, original, editedText)
      ensures var parsed := Parse(editedText, Some(original));
        if parsed.Err? then r == Err(ParseFailed(parsed.error))
        else
          var edited := parsed.value;
          && (edited.kind != kind ==> r == Err(WrongMessageKind(kind, edited.kind)))
          && (edited.kind == kind == Response && edited.status.None? ==> r == Err(MissingResponseStatus))
          && (edited.kind == kind == original.kind == Request ==>
                if SameForDiff(original, edited) then r == Err(NoChanges)
                else r.Ok? && r.value.name == name && r.value.phase == Request)
          && (edited.kind == kind == original.kind == Response && edited.status.Some? && original.status.Some? ==>
                if SameForDiff(original, edited) then r == Err(NoChanges)
                else r.Ok? && r.value.name == name && r.value.phase == Response)
    {
      var edited := ParseEditText(editedText, Some(original));
      match edited
      case Err(e) => return Err(ParseFailed(e));
      case Ok(m) =>
        NoChangesExactly(original, m);
        hide DiffOf, SameForDiff;
        if m.kind != kind {
          return Err(WrongMessageKind(kind, m.kind));
        }
        if kind.Response? && m.status.None? {
          return Err(MissingResponseStatus);
        }
        var f := if kind.Request? then ExtractRequestFilter(a, name, mark, original, m)
                 else ExtractResponseFilter(a, name, mark, request, original, m);
        match f
        case None => r := Err(NoChanges);
        case Some(filter) => r := Ok(filter);
    }
  }

  /** A new or reset session on a printable message reports no changes and generates no filter, exactly
      when no two headers of one name differ. */
  lemma UneditedText(
    a: Analysis, kind: Kind, name: string, mark: string, request: Message, original: Message)
    requires IsPrintable(original) && original.kind == kind && (kind.Response? ==> original.status.Some?)
    ensures Parse(EditText(original), Some(original)) == Ok(original)
    ensures DiffOf(original, original).HasChanges() <==> !FirstValuesOnly(original.headers)
    ensures Generate(a, kind, name, mark, request, original, EditText(original)) == Err(NoChanges) <==>
            FirstValuesOnly(original.headers)
  {
    RoundTripExactly(original);
    NoSpuriousEdits(original);
  }

  /** Typing a body below the printed head of a text message is an edit exactly when it is neither the
      old text nor the old text as it was printed. */
  lemma TypedBody(original: Message, body: string)
    requires IsPrintable(original) && original.body.TextBody? && FirstValuesOnly(original.headers)
    ensures var r := Parse(HeadText(original) + body, Some(original));
      && r.Ok?
      && (DiffOf(original, r.value).HasChanges() <==>
          body != original.body.text && !IsOnlyPrinted(original.body.text, body))
  {
    hide Parse, HeadText, DiffOf;
    EditedTextParses(original, Some(original), body);
    NoChangesExactly(original, Parse(HeadText(original) + body, Some(original)).value);
    NoSpuriousEdits(original);
    NoChangesExactly(original, original);
  }
}
