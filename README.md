# Diagram handling of the documentation tools, in Dafny

The documentation tools turn Markdown documents into PDF files and HTML pages.
Both tools treat fenced Mermaid diagram blocks (`` ```mermaid ``) specially.

The model covers three pieces of that:

- `preprocess_markdown` (convert_to_pdf.py) rewrites a Markdown document before PDF export. It makes two passes:
  - every diagram block becomes a styled box. The box is numbered `#1`, `#2`, … in document order. It is labelled with the diagram type read from its first line. It shows a preview of at most ten lines of the diagram source.
  - every placeholder image `![alt](https://via.placeholder.com/…)` becomes a dashed box that shows only its caption.
- `process_mermaid_blocks` (generate_documentation.py) rewrites every diagram block into a `<div class="mermaid">` holding the stripped diagram source, for the browser to draw.
- the HTML page name of each Markdown file is `md_file.replace('.md', '.html')`.

The project has four modules:

- `Text` (text.dfy) holds the Python `str` operations that both tools rely on: `strip`, `split('\n')` and `'\n'.join`, `startswith`, `str(n)` and `replace`. It also holds `FindFrom` and `FindChar`, the searches for the next fence, `]` or `)` that the regular-expression matches perform.
- `PdfPreprocess` (convert_to_pdf.dfy) holds the PDF preprocessing.
- `DocGen` (generate_documentation.dfy) holds the HTML diagram rewriting and the page names.
- `Agreement` (agreement.dfy) relates what the two tools recognise as a diagram block.

Each `re.sub` is modelled as the scan Python's regular-expression engine performs:

- At each index, the pattern either matches there or it does not.
  - On a match, the replacement is emitted and the scan resumes after the match.
  - Otherwise, one character is copied.
- The scan produces a sequence of pieces: copied characters and matched blocks.
  - The tiling lemmas show that the pieces are exactly the input, cut up.
  - The output is the rendering of those pieces.
- The matchers take their patterns' backtracking into account:
  - The lazy `(.*?)```` stops at the first closing fence.
  - `[^\]]*\]` stops at the first `]`.
  - The greedy `\s*\n` ends the opener at the last line break of the whitespace that follows the tag.

  Each matcher comes with lemmas that state exactly when it matches.

`preprocess_markdown` keeps a counter that the nested callback increments. It is modelled as a method: two loops, with the counter as a local variable. Its postcondition ties the result to the specification functions `MermaidPass` and `ImagePass`, and the lemmas about it are stated on those functions.

## Model

| member | source | states |
|---|---|---|
| PdfPreprocess.PreprocessMarkdown | convert_to_pdf.py:69-124 | the result is the placeholder pass applied to the output of the diagram pass, with diagrams numbered from 1 |
| PdfPreprocess.SubstituteDiagrams | convert_to_pdf.py:72-111 | the loop with its counter gives the rendering of the diagram scan in which the k-th block gets number k (the counter is incremented before each box) |
| PdfPreprocess.SubstitutePlaceholders | convert_to_pdf.py:118-122 | the loop produces the rendering of the placeholder scan of its input |
| PdfPreprocess.MatchDiagram | convert_to_pdf.py:111 | a block matches at i exactly when `` ```mermaid\n `` occurs at i and a fence follows somewhere later. The match is opener, payload, fence. The payload contains no fence: the lazy group stops at the first one found after the opener |
| PdfPreprocess.ScanDiagramsTiles | convert_to_pdf.py:111 | the diagram scan cuts the document into copied characters and whole blocks that concatenate back to the document |
| PdfPreprocess.DiagramPayloadsCut | convert_to_pdf.py:111 | every payload the substitution replaces stops at the first closing fence |
| PdfPreprocess.UnclosedUnchanged | convert_to_pdf.py:111 | a document in which no opener is followed by a fence comes out of the diagram pass unchanged |
| PdfPreprocess.FirstLine | convert_to_pdf.py:79 | the first line of the stripped payload, itself stripped; FirstLineTrimmed states what it is |
| PdfPreprocess.FirstLineTrimmed | convert_to_pdf.py:79 | the line the type is read from begins and ends with no whitespace and holds no line break |
| PdfPreprocess.DiagramType | convert_to_pdf.py:82-93 | each label is given exactly when the first line starts with its keyword, and "Diagram" exactly when it starts with none of them |
| PdfPreprocess.Preview | convert_to_pdf.py:96-98 | the preview text of a payload; PreviewLines states what it is made of |
| PdfPreprocess.PreviewLines | convert_to_pdf.py:96-98 | the preview, split into lines, is the first min(n, 10) lines of the stripped payload each behind four spaces, followed by `    ...` exactly when there are more than 10 lines. So it has at most 11 lines |
| PdfPreprocess.DiagramLabel | convert_to_pdf.py:102 | the heading `{type} #{n}`. DiagramType and Text.DecimalRoundTrip state what its two parts are |
| PdfPreprocess.DiagramBox | convert_to_pdf.py:100-108 | the box that replaces the n-th block: the label and the preview between the fixed markup of the source. DiagramNumbering states which n each block gets |
| PdfPreprocess.MermaidPass | convert_to_pdf.py:111 | the first `re.sub`, with the counter starting at 1. ScanDiagramsTiles, DiagramNumbering and UnclosedUnchanged state its behaviour |
| PdfPreprocess.DiagramNumbering | convert_to_pdf.py:102 | the block at any position is boxed with number 1 + the count of blocks before it, and the blocks after it are numbered on from there |
| PdfPreprocess.NumberedAt | convert_to_pdf.py:72-75 | for any box builder, the diagram at chunk j receives the counter value reached after the diagrams in front of it |
| PdfPreprocess.RenderAppend | convert_to_pdf.py:72-75 | rendering a concatenation numbers the second part on from where the first left off, and the diagram counts add up |
| PdfPreprocess.MatchPlaceholder | convert_to_pdf.py:119 | a match is `![alt](https://via.placeholder.com/size)`. The caption has no `]`. The size is non-empty and has no `)` |
| PdfPreprocess.PlaceholderRecognised | convert_to_pdf.py:119 | conversely, every such reference is matched where it starts, with its own caption, size and end |
| PdfPreprocess.ScanImagesTiles | convert_to_pdf.py:118-122 | the placeholder scan cuts its input into copied characters and whole references that concatenate back to the input |
| PdfPreprocess.PlaceholdersWellFormed | convert_to_pdf.py:119 | every reference the substitution replaces has a caption without `]` and a non-empty size without `)` |
| PdfPreprocess.ImagePassKeepsOtherText | convert_to_pdf.py:118-122 | text in which no placeholder reference the pattern accepts occurs passes through the image pass unchanged, whatever other images and links it holds |
| PdfPreprocess.OtherImageNotMatched | convert_to_pdf.py:119 | an image reference `![alt](url)` with no `]` in its caption, whose address does not start with `https://via.placeholder.com/`, is not matched where it starts |
| PdfPreprocess.NoServiceNoPlaceholder | convert_to_pdf.py:119 | text that never contains `](https://via.placeholder.com/` holds no placeholder reference |
| PdfPreprocess.PlainDocumentUnchanged | convert_to_pdf.py:69-124 | a document without a complete diagram block and without a placeholder reference comes out of the preprocessing unchanged |
| PdfPreprocess.ImageBox | convert_to_pdf.py:116 | the dashed box holding a caption; PlaceholderBecomesBox states when it is produced |
| PdfPreprocess.ImagePass | convert_to_pdf.py:118-122 | the second `re.sub`. ScanImagesTiles, PlaceholderBecomesBox and ImagePassKeepsOtherText state its behaviour |
| PdfPreprocess.PlaceholderBecomesBox | convert_to_pdf.py:114-116 | a placeholder reference becomes the dashed box holding its caption alone; the address is dropped |
| DocGen.ProcessMermaidBlocks | generate_documentation.py:937-949 | the rendering of the block scan. ScanBlocksTiles, BlocksWellFormed, SingleBlock and UnclosedUnchanged state its behaviour |
| DocGen.MermaidDiv | generate_documentation.py:945-947 | the div holding the stripped group; SingleBlock states when it is produced |
| DocGen.OpenerEnd | generate_documentation.py:942 | the opener after the tag ends just after a line break |
| DocGen.OpenerEndSpec | generate_documentation.py:942 | the opener exists exactly when the whitespace after the tag holds a line break. It is all whitespace, and it ends after the last line break of that whitespace (greedy `\s*`) |
| DocGen.MatchBlock | generate_documentation.py:942 | a match has its opener as OpenerEnd describes, and its fence lies after the opener, inside the text |
| DocGen.MatchBlockSpec | generate_documentation.py:942 | a block matches at i exactly when the tag occurs at i, the whitespace after it holds a line break, and a fence follows later. The group ends at the first fence after the tag |
| DocGen.ScanBlocksTiles | generate_documentation.py:949 | the block scan cuts the content into copied characters and whole blocks that concatenate back to the content |
| DocGen.BlocksWellFormed | generate_documentation.py:942 | every replaced block's opener is whitespace ending in a line break, and its payload stops at the first fence |
| DocGen.RenderAppend | generate_documentation.py:949 | rendering distributes over concatenation of pieces |
| DocGen.UnclosedUnchanged | generate_documentation.py:949 | content in which no block opens comes out unchanged. No block opens when every tag followed by a fence has whitespace without a line break after it, then other text: this covers tag lines with a title or a longer word such as `mermaidjs` |
| DocGen.TitledTagUnchanged | generate_documentation.py:942 | `` ```mermaid title\nA``` `` comes back unchanged: the text after the tag keeps the pattern from matching |
| DocGen.BlockAt | generate_documentation.py:942-947 | a tag directly followed by a line break opens a block that ends at the first fence after it. Its stripped group equals the stripped text between the line break and that fence |
| DocGen.SingleBlock | generate_documentation.py:937-949 | a lone block `` ```mermaid\n `` + body + fence, where the body has no fence, becomes exactly the div holding the stripped body |
| DocGen.HtmlFileName | generate_documentation.py:1044 | `md_file.replace('.md', '.html')`; the three lemmas below state its behaviour |
| DocGen.HtmlFileNameEveryOccurrence | generate_documentation.py:1044 | every `.md` in a name is rewritten: the first one is replaced and the rest of the name is renamed in the same way |
| DocGen.HtmlFileNameSwapsExtension | generate_documentation.py:1044 | a name whose only `.md` is its extension gets the extension `.html` |
| DocGen.HtmlFileNameKeepsOthers | generate_documentation.py:1044 | a name without `.md` is kept as it is |
| Agreement.DiagramBlocksAgree | convert_to_pdf.py:111 | every block the PDF pattern matches is matched by the HTML pattern at the same place. It ends at the same fence and has the same stripped source |
| Agreement.BlankAfterTagOnlyHtml | generate_documentation.py:942 | the converse fails: with a blank between the tag and the line break, only the HTML pattern matches |
| Text.FindFrom | convert_to_pdf.py:111 | `find` returns an occurrence at or after the start with none before it, and None exactly when there is none |
| Text.FindChar | convert_to_pdf.py:119 | the first occurrence of a character at or after the start, or None when there is none |
| Text.SpaceRunEnd | generate_documentation.py:942 | the end of the maximal run of whitespace starting at an index |
| Text.Strip | convert_to_pdf.py:79 | Python's `strip`; StripSpec and StrippedUnique characterise it |
| Text.StripSpec | convert_to_pdf.py:79 | `strip` keeps an infix that neither begins nor ends with whitespace, with only whitespace around it |
| Text.StrippedUnique | convert_to_pdf.py:79 | at most one such infix exists, so `strip` is characterised by StripSpec |
| Text.StripKeepsCharacters | convert_to_pdf.py:79 | `strip` keeps only characters of its input |
| Text.StripAfterSpace | generate_documentation.py:945 | whitespace in front of a text does not change what `strip` keeps |
| Text.SplitLines | convert_to_pdf.py:96 | `split('\n')` gives at least one line and no line contains a line break |
| Text.JoinSplitLines | convert_to_pdf.py:96 | joining the lines with line breaks gives back the text |
| Text.SplitJoinLines | convert_to_pdf.py:96 | splitting the join of lines without line breaks gives back the lines |
| Text.Decimal | convert_to_pdf.py:102 | `str(n)` is a non-empty string of digits with no leading zero |
| Text.DecimalRoundTrip | convert_to_pdf.py:102 | reading the digits of `str(n)` back gives n |
| Text.Replace | generate_documentation.py:1044 | Python's `replace`; ReplaceFirst, ReplaceAtEnd and ReplaceAbsent characterise it |
| Text.ReplaceFirst | generate_documentation.py:1044 | `replace` rewrites the first occurrence and carries on after it, so every occurrence is rewritten, left to right and without overlap |
| Text.ReplaceAtEnd | generate_documentation.py:1044 | a pattern whose first occurrence ends the text is replaced there and only there |
| Text.ReplaceAbsent | generate_documentation.py:1044 | a text without the pattern is left unchanged by `replace` |

## Left out

- Markdown-to-HTML conversion, page templates, CSS, the cover page and the index page are not part of this model. They do not touch the diagram or placeholder text.
- Reading and writing files, the loops over the document list, logging, and the HTML-to-PDF rendering (WeasyPrint or a browser) are left out. They are I/O; the text they pass in is a parameter here.
- The Mermaid JavaScript that draws the diagrams in the page is not part of this model.
- Regular expressions are not interpreted in general. Each of the three patterns is modelled by a matcher written for it. Lemmas state exactly which inputs each matcher accepts.
- PdfPreprocess.SubstituteDiagrams: the callback and the counter captured in its closure are modelled as a box-building function parameter and a loop variable. The counter value is passed to the box with each payload.
- PdfPreprocess.PreprocessMarkdown: the preprocessing is not idempotent, and no such property is claimed. A second run can form new matches where the first run's output meets surrounding text. One example is a nested placeholder inside another placeholder's caption.
- Python strings are sequences of code points. Byte encodings are left out. Both tools read their files in text mode, which turns CRLF line ends into `\n` before either rewriter sees the text; that translation is left out too. `\s` and `str.isspace` are modelled by the list of Unicode whitespace code points.
