# KituraMarkdown, modelled in Dafny

KituraMarkdown is a template engine for the Kitura web framework. It renders
`.md` files to HTML. The Markdown itself is converted by the cmark C library.
The engine's own logic is the page composer `createPage(from:withTemplate:)`
and the small amount of orchestration around it:

- The composer treats the template name `"default"` as a sentinel and returns a
  fixed HTML shell around the snippet.
- Any other template gets every occurrence of the placeholder
  `<snippetInsertLocation></snippetInsertLocation>` replaced by the snippet. The
  replacement scans left to right, and occurrences do not overlap. The model
  compares literally on Unicode scalar values, a simplification of
  Foundation's comparison (see "Left out").
- When that replacement leaves the template textually unchanged, the composer
  returns the bare snippet instead.
- File rendering wraps the snippet only for `MarkdownOptions` and only when the
  snippet is non-empty.
- `render(from:pageTemplate:)` always composes, even an empty snippet.

The project has three modules:

- `Replace` (`replace.dfy`) models Foundation's all-occurrences replacement as
  `ReplaceAll`, compared literally on scalar values. `CountOcc` is its occurrence count, and
  `Split`/`Join` give an independent view of it: the pieces between the
  occurrences, joined again.
- `Utf8` (`utf8.dfy`) models the UTF-8 encoding that `render(from: String)` hands
  to the converter. A strict decoder is proved to be its inverse in both
  directions.
- `KituraMarkdown` (`kitura_markdown.dfy`) holds the composer and the three
  render entry points. The cmark converter is a function parameter
  `convert: seq<byte> -> string` and is never interpreted. The file read is an
  input of type `Result<seq<byte>, ReadError>`.

Strings are `seq<char>`, where a `char` is a Unicode scalar value, and equality
is exact.

## Model

| member | source | states |
|---|---|---|
| `KituraMarkdown.CreatePage` | Sources/KituraMarkdown/KituraMarkdown.swift:217-225 | Total. For `"default"` the page is exactly the shell prefix, then the snippet verbatim, then `</body></html>`. For any other template the page is the bare snippet when the template has no marker or the snippet equals the marker. Otherwise the page is the template with every marker replaced, and it differs from the template. |
| `KituraMarkdown.CreatePageFillsEveryMarker` | Sources/KituraMarkdown/KituraMarkdown.swift:222-224 | For a non-default template with a marker and a snippet other than the marker, the template is its marker-free pieces joined by the marker, and the page is the same pieces joined by the snippet. There is at least one marker. The page length is \|template\| + n·(\|snippet\| − \|marker\|). |
| `KituraMarkdown.DeletedMarkers` | Sources/KituraMarkdown/KituraMarkdown.swift:222-224 | Composing the empty snippet into a non-default template with markers gives the pieces joined by nothing. Its length is \|template\| − n·\|marker\|. |
| `KituraMarkdown.RenderString` | Sources/KituraMarkdown/KituraMarkdown.swift:191-197 | The converter is applied to the one well-formed UTF-8 byte sequence that decodes to the text. |
| `KituraMarkdown.RenderPage` | Sources/KituraMarkdown/KituraMarkdown.swift:211-214 | The snippet of the text is always composed with the template, with no empty-snippet short-circuit. This covers the shell for `"default"`, the bare snippet on a no-op replacement, and the filled template otherwise. |
| `KituraMarkdown.RenderFile` | Sources/KituraMarkdown/KituraMarkdown.swift:149-159 | A read error is passed on unchanged. Options other than `MarkdownOptions` give the converted snippet unchanged. An empty snippet gives `""` whatever the options. `MarkdownOptions` with a non-empty snippet gives `CreatePage(snippet, pageTemplate)`. |
| `KituraMarkdown.EmptySnippetFileNotWrapped` | Sources/KituraMarkdown/KituraMarkdown.swift:154-158 | When the text converts to `""`, file rendering of its UTF-8 bytes with any `MarkdownOptions` gives `""`. |
| `KituraMarkdown.EmptySnippetPageWrapped` | Sources/KituraMarkdown/KituraMarkdown.swift:211-213 | When the text converts to `""`, `RenderPage` still wraps it. `"default"` gives the empty shell, and a template with markers gives the template with every marker deleted, shorter by n·\|marker\|. |
| `KituraMarkdown.NonEmptySnippetPageAgreesWithFile` | Sources/KituraMarkdown/KituraMarkdown.swift:154-155 | For a non-empty snippet, file rendering with `MarkdownOptions(t)` of the text's UTF-8 bytes equals `RenderPage(text, t)`. |
| `Replace.ReplaceAll` | Sources/KituraMarkdown/KituraMarkdown.swift:222 | The replacement's length is \|t\| + n·(\|s\| − \|m\|), with n the occurrence count. The result equals the text if and only if the marker is absent or the replacement is the marker itself. This is the exact condition of the composer's fallback on line 224. |
| `Replace.CountOcc` | Sources/KituraMarkdown/KituraMarkdown.swift:222 | The scan counts zero occurrences exactly when the marker occurs nowhere in the text. |
| `Replace.Split` | Sources/KituraMarkdown/KituraMarkdown.swift:222 | The scan yields one piece more than the occurrences it counts. The first piece is a prefix of the text. |
| `Replace.ReplaceIsJoinOfSplit` | Sources/KituraMarkdown/KituraMarkdown.swift:222 | The replacement is the pieces between the occurrences joined by the replacement text. |
| `Replace.SplitJoin` | Sources/KituraMarkdown/KituraMarkdown.swift:222 | The pieces joined by the marker give the text back. |
| `Replace.DeleteAll` | Sources/KituraMarkdown/KituraMarkdown.swift:222 | Replacing by the empty text gives the pieces joined by nothing. The length drops by n·\|m\|. |
| `Replace.SplitPiecesMarkerFree` | Sources/KituraMarkdown/KituraMarkdown.swift:222 | No piece contains the marker: every occurrence the left-to-right scan finds is replaced, and no piece holds a further occurrence. An occurrence overlapping a found one may still straddle two pieces. |
| `Replace.Found` | Sources/KituraMarkdown/KituraMarkdown.swift:222 | The scan finds as many positions as it counts occurrences, one per replacement. |
| `Replace.FoundAreOccurrences` | Sources/KituraMarkdown/KituraMarkdown.swift:222 | Every position the scan finds is an occurrence of the target. |
| `Replace.ScanFindsEveryOccurrence` | Sources/KituraMarkdown/KituraMarkdown.swift:222 | For a target that cannot overlap itself, the found positions are exactly the occurrences: none is skipped. |
| `Replace.OverlappingOccurrenceMissed` | Sources/KituraMarkdown/KituraMarkdown.swift:222 | For a target that overlaps itself the scan skips occurrences: in `"aaa"` it finds `"aa"` only at index 0, and the result is `"Xa"`. |
| `KituraMarkdown.MarkerSelfOverlapFree` | Sources/KituraMarkdown/KituraMarkdown.swift:222 | The placeholder cannot overlap itself: no proper suffix of it is also a prefix. |
| `KituraMarkdown.EveryMarkerReplaced` | Sources/KituraMarkdown/KituraMarkdown.swift:222-224 | In any template, the positions the composer's scan replaces are exactly the occurrences of the placeholder, and there are as many as the occurrence count. |
| `Utf8.Encode` | Sources/KituraMarkdown/KituraMarkdown.swift:192 | Encoding takes one to four bytes per character. It takes one byte per character exactly when the text is ASCII. |
| `Utf8.DecodeEncodeChar` | Sources/KituraMarkdown/KituraMarkdown.swift:192 | The decoder reads back the character that was encoded, whatever bytes follow it. |
| `Utf8.EncodeDecodeChar` | Sources/KituraMarkdown/KituraMarkdown.swift:192 | Whatever the decoder accepts at the head of a sequence is exactly the encoding of the decoded character. |
| `Utf8.DecodeEncode` | Sources/KituraMarkdown/KituraMarkdown.swift:192 | Decoding the encoding of a string gives the string back. |
| `Utf8.EncodeDecode` | Sources/KituraMarkdown/KituraMarkdown.swift:192 | Every accepted byte sequence is the encoding of its decoding. |
| `Utf8.EncodingUnique` | Sources/KituraMarkdown/KituraMarkdown.swift:192 | A string has exactly one well-formed UTF-8 encoding. |

Behaviour of the code worth knowing:

- A page need not hold exactly n copies of the snippet and no marker. The
  snippet may itself contain the marker, and a piece of the template followed
  by the snippet may spell a new one. `CreatePageFillsEveryMarker` states what
  does hold.
- Every placeholder in the template is replaced, because the placeholder
  cannot overlap itself (`EveryMarkerReplaced`). For a target that overlaps
  itself, Foundation's scan skips occurrences (`OverlappingOccurrenceMissed`).
- The fallback also fires when the snippet equals the marker, because line 224
  compares the replaced text with the template. `CreatePage` states that case.
- The empty template gives the bare snippet.

## Left out

- The cmark conversion, its unsafe pointer binding and `free`
  (KituraMarkdown.swift:167-184) are a foreign C library. They are the
  uninterpreted parameter `convert`. Its "nil or invalid UTF-8 gives `""`"
  outcome is just one possible value of `convert`.
- The file read `Data(contentsOf:)` (line 151) is I/O. Its outcome is the input
  `contents` of `RenderFile`, and a thrown error is `Failure(ReadError(_))`.
- The `TemplateEngine` conformance and the two forwarding `render` overloads
  (lines 103-130) are left out. The first passes `NullRenderingOptions`, which is
  `RenderFile` with `OtherOptions`. The second passes its options through. The
  `context`, `with`, `forKey` and `templateName` parameters are never read.
- The `fileExtension` constant (line 84) and the `#if swift(>=5)` alternatives
  are left out.
- RenderString: the `guard` branch that returns `""` when `data(using: .utf8)`
  fails (lines 192-194) is not modelled. Every string of Unicode scalar values
  has a UTF-8 encoding, so that branch cannot be taken.
- Swift `String` equality and Foundation's search use Unicode canonical
  equivalence and match only whole composed characters. The model uses exact
  equality of scalar sequences. The marker and the sentinel are ASCII. The
  model does not capture a template that is only canonically equivalent to
  `"default"` or to the marker. Nor does it capture a literal marker that
  Foundation's search would not match, such as one whose closing `>` is
  followed by a combining mark (U+0338): the model replaces that marker.
