/** The KituraMarkdown template engine: Markdown is converted to an HTML
    snippet by an external CommonMark converter, and the snippet is optionally
    wrapped in a page, either the built-in shell or a caller's template holding
    a placeholder marker. The converter is a parameter of every rendering
    function; the file system is an input (the outcome of reading the file). */
module KituraMarkdown {
  import opened Replace
  import opened Utf8

  /** The placeholder that a page template carries where the snippet goes. */
  const Marker: string := "<snippetInsertLocation></snippetInsertLocation>"

  /** The template name that selects the built-in page shell. */
  const DefaultTemplate: string := "default"

  /** The built-in page shell, before and after the snippet. */
  const ShellPrefix: string := "<!DOCTYPE html><html lang=\"en\"><head><meta charset=\"UTF-8\"></head><body>"
  const ShellSuffix: string := "</body></html>"

  /** The rendering options a caller passes to the file-rendering entry point:
      `MarkdownOptions` carries a page template; any other options value
      of the host framework is `OtherOptions`. */
  datatype RenderingOptions = OtherOptions | MarkdownOptions(pageTemplate: string)

  /** The outcome of an operation that can throw. */
  datatype Result<T, E> = Success(value: T) | Failure(error: E)

  /** The error thrown when a file cannot be read (missing, not permitted, I/O
      failure); the model keeps only the reason it gives. */
  datatype ReadError = ReadError(reason: string)

  /** Wraps a snippet in a page. The template "default" selects the built-in
      shell. Any other template has every marker replaced by the snippet, but
      when that replacement leaves the template as it was (no marker in it, or
      a snippet that is itself the marker), the bare snippet is returned and
      the template is dropped. Defined for every snippet and template. */
  function CreatePage(snippet: string, template: string): (page: string)
    ensures template == DefaultTemplate ==> page == ShellPrefix + snippet + ShellSuffix
    ensures template != DefaultTemplate && (!Contains(template, Marker) || snippet == Marker) ==>
              page == snippet
    ensures template != DefaultTemplate && Contains(template, Marker) && snippet != Marker ==>
              page == ReplaceAll(template, Marker, snippet) && page != template
  {
    if template == DefaultTemplate then
      ShellPrefix + snippet + ShellSuffix
    else
      var result := ReplaceAll(template, Marker, snippet);
      if result == template then snippet else result
  }

  /** Converts Markdown text: the converter receives the UTF-8 bytes of the
      text, the one well-formed byte sequence that decodes to it. */
  function RenderString(text: string, convert: seq<byte> -> string): (snippet: string)
    ensures forall b {:trigger convert(b)} :: Decode(b) == Some(text) ==> snippet == convert(b)
  {
    EncodingUnique(text);
    convert(Encode(text))
  }

  /** Converts Markdown text and always composes the page, even when the
      snippet is empty. */
  function RenderPage(text: string, template: string, convert: seq<byte> -> string): (page: string)
    ensures var snippet := RenderString(text, convert);
      && (template == DefaultTemplate ==> page == ShellPrefix + snippet + ShellSuffix)
      && (template != DefaultTemplate && (!Contains(template, Marker) || snippet == Marker) ==>
            page == snippet)
      && (template != DefaultTemplate && Contains(template, Marker) && snippet != Marker ==>
            page == ReplaceAll(template, Marker, snippet))
  {
    CreatePage(RenderString(text, convert), template)
  }

  /** Renders a Markdown file, given the outcome of reading it. A read error is
      passed on. Otherwise the contents are converted, and the snippet is
      wrapped only when the options are MarkdownOptions and the snippet is not
      empty; the context of the host framework is never consulted. */
  function RenderFile(contents: Result<seq<byte>, ReadError>, options: RenderingOptions,
                      convert: seq<byte> -> string): (r: Result<string, ReadError>)
    ensures contents.Failure? ==> r == Failure(contents.error)
    ensures contents.Success? && options.OtherOptions? ==> r == Success(convert(contents.value))
    ensures contents.Success? && convert(contents.value) == "" ==> r == Success("")
    ensures contents.Success? && options.MarkdownOptions? && convert(contents.value) != "" ==>
              r == Success(CreatePage(convert(contents.value), options.pageTemplate))
  {
    match contents
    case Failure(e) => Failure(e)
    case Success(md) =>
      var snippet := convert(md);
      if options.MarkdownOptions? && snippet != "" then
        Success(CreatePage(snippet, options.pageTemplate))
      else
        Success(snippet)
  }

  /** With a marker-bearing template and a snippet other than the marker, the
      page is the template's marker-free pieces joined by the snippet, whose
      length grows by the difference in length for each of the markers. */
  lemma CreatePageFillsEveryMarker(snippet: string, template: string)
    requires template != DefaultTemplate && Contains(template, Marker) && snippet != Marker
    ensures var page := CreatePage(snippet, template);
      var pieces := Split(template, Marker);
      && Join(pieces, Marker) == template
      && page == Join(pieces, snippet)
      && (forall k :: 0 <= k < |pieces| ==> !Contains(pieces[k], Marker))
      && CountOcc(template, Marker) >= 1
      && |page| == |template| + CountOcc(template, Marker) * (|snippet| - |Marker|)
  {
    SplitJoin(template, Marker);
    ReplaceIsJoinOfSplit(template, Marker, snippet);
    SplitPiecesMarkerFree(template, Marker);
  }

  /** File rendering never wraps an empty snippet, whatever the template. */
  lemma EmptySnippetFileNotWrapped(text: string, template: string, convert: seq<byte> -> string)
    requires RenderString(text, convert) == ""
    ensures RenderFile(Success(Encode(text)), MarkdownOptions(template), convert) == Success("")
  {
  }

  /** RenderPage wraps an empty snippet all the same: the "default" template
      gives the empty shell, and a template with markers gives the template
      with every marker deleted. */
  lemma EmptySnippetPageWrapped(text: string, template: string, convert: seq<byte> -> string)
    requires RenderString(text, convert) == ""
    ensures template == DefaultTemplate ==> RenderPage(text, template, convert) == ShellPrefix + ShellSuffix
    ensures template != DefaultTemplate && Contains(template, Marker) ==>
              var page := RenderPage(text, template, convert);
              page == Join(Split(template, Marker), "")
              && |page| == |template| - CountOcc(template, Marker) * |Marker|
  {
    if template == DefaultTemplate {
      assert ShellPrefix + "" + ShellSuffix == ShellPrefix + ShellSuffix;
    } else if Contains(template, Marker) {
      DeletedMarkers(template);
    }
  }

  /** Filling a marker-bearing template with the empty snippet deletes the
      markers. */
  lemma DeletedMarkers(template: string)
    requires template != DefaultTemplate && Contains(template, Marker)
    ensures CreatePage("", template) == Join(Split(template, Marker), "")
    ensures |CreatePage("", template)| == |template| - CountOcc(template, Marker) * |Marker|
  {
    assert |Marker| > 0;
    assert CreatePage("", template) == ReplaceAll(template, Marker, "");
    DeleteAll(template, Marker);
  }

  /** For a non-empty snippet, rendering the file with MarkdownOptions and
      rendering the text with the same template give the same page. */
  lemma NonEmptySnippetPageAgreesWithFile(text: string, template: string, convert: seq<byte> -> string)
    requires RenderString(text, convert) != ""
    ensures RenderFile(Success(Encode(text)), MarkdownOptions(template), convert)
              == Success(RenderPage(text, template, convert))
  {
  }

  /** The characters of the marker that rule out an overlap: it opens with
      "<s", its only other '<' is at index 23, and that one is followed by
      '/'. */
  lemma MarkerChars()
    ensures Marker[0] == '<' && Marker[1] == 's' && Marker[24] == '/'
    ensures forall k :: 0 < k < |Marker| && k != 23 ==> Marker[k] != '<'
  {
    assert Marker == "<snippetInsertLocation>" + "</snippetInsertLocation>";
  }

  /** The marker cannot overlap itself. */
  lemma MarkerSelfOverlapFree()
    ensures SelfOverlapFree(Marker)
  {
    MarkerChars();
    forall k | 0 < k < |Marker| ensures Marker[k..] != Marker[..|Marker| - k] {
      if k != 23 {
        assert Marker[k..][0] != Marker[..|Marker| - k][0];
      } else {
        assert Marker[k..][1] != Marker[..|Marker| - k][1];
      }
    }
  }

  /** Every marker in a template is one the composer's scan finds and
      replaces: the scan's positions are exactly the occurrences of the
      marker, and there are as many as the replacements it makes. */
  lemma EveryMarkerReplaced(template: string)
    ensures |Found(template, Marker)| == CountOcc(template, Marker)
    ensures forall i :: OccursAt(template, Marker, i) <==> i in Found(template, Marker)
  {
    MarkerSelfOverlapFree();
    ScanFindsEveryOccurrence(template, Marker);
  }
}
