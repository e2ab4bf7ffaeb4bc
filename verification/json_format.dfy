/**
  Deciding when a body is re-formatted as JSON. The JSON parsers themselves
  (Newtonsoft.Json in the extension, System.Text.Json in the console tool)
  are an oracle `format`: `Some(f)` is the indented re-serialisation of a
  text that parses, `None` a parse failure.
 */
module JsonFormat {
  import opened Wrappers
  import opened Text

  /** The declared content type mentions "json", in any case. */
  predicate DeclaredJson(contentType: Option<string>) {
    contentType.Some? && Contains(ToLower(contentType.value), "json")
  }

  /** After leading white space the body opens an object or an array. */
  predicate LooksLikeJson(content: string) {
    var t := TrimStart(content);
    |t| > 0 && (t[0] == '{' || t[0] == '[')
  }

  /** Whether the extension attempts a parse at all. */
  predicate ShouldParse(content: string, contentType: Option<string>) {
    !IsBlank(content) && (DeclaredJson(contentType) || LooksLikeJson(content))
  }

  /** The extension's `TryFormatJson`: never fails, and any text it does not
      take from the parser is the input itself. */
  function TryFormatJson(content: Option<string>, contentType: Option<string>,
                         format: string -> Option<string>): (r: string)
    ensures content.None? ==> r == ""
    ensures content.Some? && IsBlank(content.value) ==> r == content.value
    ensures content.Some? && !ShouldParse(content.value, contentType) ==> r == content.value
    ensures content.Some? && ShouldParse(content.value, contentType) ==>
              r == format(content.value).GetOr(content.value)
    ensures content.Some? && format(content.value).None? ==> r == content.value
    ensures content.Some? ==> r == content.value || format(content.value) == Some(r)
  {
    if IsNullOrWhiteSpace(content) then content.GetOr("")
    else
      var c := content.value;
      var isJson := DeclaredJson(contentType) || LooksLikeJson(c);
      if isJson then
        match format(c)
        case Some(f) => f
        case None => c
      else c
  }

  /** A formatter that reproduces its own output (re-parsing an indented
      document and indenting it again changes nothing) makes formatting
      idempotent, whatever the content type. */
  lemma TryFormatJsonIdempotent(content: string, contentType: Option<string>,
                                format: string -> Option<string>)
    requires forall s :: format(s).Some? ==> format(format(s).value) == format(s)
    ensures var once := TryFormatJson(Some(content), contentType, format);
            TryFormatJson(Some(once), contentType, format) == once
  {
    var once := TryFormatJson(Some(content), contentType, format);
    if once != content {
      assert format(content) == Some(once);
      assert format(once) == Some(once);
    }
  }

  /** The console tool's `TryParseJson`: blank text is never handed to the
      parser. */
  function TryParseJson(text: string, format: string -> Option<string>): (r: bool)
    ensures r ==> format(text).Some? && Trim(text) != []
    ensures Trim(text) != [] && format(text).Some? ==> r
  {
    TrimEmptyIffBlank(text);
    !IsBlank(text) && format(text).Some?
  }

  /** The console tool's `FormatJson`: the input itself when it does not
      parse. */
  function FormatJson(json: string, format: string -> Option<string>): (r: string)
    ensures format(json).None? ==> r == json
    ensures format(json).Some? ==> format(json) == Some(r)
  {
    format(json).GetOr(json)
  }

  /** A body as the console tool logs it: its text and whether it goes to the
      colourising writer. */
  datatype Rendered = Rendered(text: string, isJson: bool)

  /** The gating in the console tool's request and response handlers. */
  function ConsoleBody(prettify: bool, body: string, format: string -> Option<string>): (r: Rendered)
    ensures r.isJson <==> prettify && !IsBlank(body) && format(body).Some?
    ensures !r.isJson ==> r.text == body
    ensures r.isJson ==> format(body) == Some(r.text)
  {
    if prettify && TryParseJson(body, format) then Rendered(FormatJson(body, format), true)
    else Rendered(body, false)
  }
}
