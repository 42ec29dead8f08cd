/** The Markdown preprocessing done before PDF export (`preprocess_markdown`):
    every diagram block becomes a numbered box with a short preview of its
    source, then every placeholder image becomes a box showing its caption. */
module PdfPreprocess {
  import opened Text

  /** The opening fence of a diagram block: three backticks, the tag, a newline. */
  const Opener := "```mermaid\n"
  /** At most this many payload lines are shown in a preview. */
  const PreviewLimit := 10

  // ---------------------------------------------------------------------------
  // Diagram type

  /** The line a block's type is read from: the first line of the stripped
      payload, itself stripped. */
  function FirstLine(payload: string): string {
    Strip(SplitLines(Strip(payload))[0])
  }

  /** The line a type is read from is stripped and holds no line break. */
  lemma {:induction false} FirstLineTrimmed(payload: string)
    ensures Trimmed(FirstLine(payload)) && '\n' !in FirstLine(payload)
  {
    var line := SplitLines(Strip(payload))[0];
    StripSpec(line);
    StripKeepsCharacters(line);
  }

  /** The label of a diagram, from the keyword its first line starts with;
      the keywords are tested in the order graph, sequenceDiagram, erDiagram,
      classDiagram, pie. They begin with different letters, so at most one
      matches and each label names exactly one keyword. */
  function DiagramType(line: string): (kind: string)
    ensures kind == "Flow Diagram" <==> StartsWith(line, "graph")
    ensures kind == "Sequence Diagram" <==> StartsWith(line, "sequenceDiagram")
    ensures kind == "Entity Relationship Diagram" <==> StartsWith(line, "erDiagram")
    ensures kind == "Class Diagram" <==> StartsWith(line, "classDiagram")
    ensures kind == "Pie Chart" <==> StartsWith(line, "pie")
    ensures kind == "Diagram" <==>
      && !StartsWith(line, "graph") && !StartsWith(line, "sequenceDiagram")
      && !StartsWith(line, "erDiagram") && !StartsWith(line, "classDiagram")
      && !StartsWith(line, "pie")
  {
    assert StartsWith(line, "graph") ==> line[0] == 'g' && line[..5] == "graph";
    assert StartsWith(line, "sequenceDiagram") ==> line[0] == 's' && line[..15] == "sequenceDiagram";
    assert StartsWith(line, "erDiagram") ==> line[0] == 'e' && line[..9] == "erDiagram";
    assert StartsWith(line, "classDiagram") ==> line[0] == 'c' && line[..12] == "classDiagram";
    assert StartsWith(line, "pie") ==> line[0] == 'p' && line[..3] == "pie";
    if StartsWith(line, "graph") then "Flow Diagram"
    else if StartsWith(line, "sequenceDiagram") then "Sequence Diagram"
    else if StartsWith(line, "erDiagram") then "Entity Relationship Diagram"
    else if StartsWith(line, "classDiagram") then "Class Diagram"
    else if StartsWith(line, "pie") then "Pie Chart"
    else "Diagram"
  }

  // ---------------------------------------------------------------------------
  // Preview

  /** Each line prefixed with four spaces. */
  function Indent(lines: seq<string>): seq<string> {
    seq(|lines|, k requires 0 <= k < |lines| => "    " + lines[k])
  }

  /** How many of `n` lines the preview shows: `len(lines[:10])`. */
  function Shown(n: nat): nat {
    if n < PreviewLimit then n else PreviewLimit
  }

  /** The preview text of a payload: its first lines, indented, and a
      `    ...` line when some were left out. */
  function Preview(payload: string): string {
    var lines := SplitLines(Strip(payload));
    JoinLines(Indent(lines[..Shown(|lines|)]))
      + (if |lines| > PreviewLimit then "\n    ..." else "")
  }

  /** The lines a preview is made of: the first min(n, 10) lines of the
      stripped payload, each behind four spaces, then the line `    ...`
      if and only if the payload has more than 10 lines. */
  function PreviewLineList(payload: string): seq<string> {
    var lines := SplitLines(Strip(payload));
    Indent(lines[..Shown(|lines|)]) + (if |lines| > PreviewLimit then ["    ..."] else [])
  }

  /** Read back line by line, the preview is exactly its line list, which
      has at most 11 lines. */
  lemma {:induction false} PreviewLines(payload: string)
    ensures SplitLines(Preview(payload)) == PreviewLineList(payload)
    ensures |SplitLines(Preview(payload))| <= PreviewLimit + 1
  {
    var lines := SplitLines(Strip(payload));
    var shown := Indent(lines[..Shown(|lines|)]);
    IndentedLines(lines, Shown(|lines|));
    if |lines| > PreviewLimit {
      PreviewJoinsLong(payload);
      SplitJoinLines(shown + ["    ..."]);
    } else {
      PreviewJoinsShort(payload);
      SplitJoinLines(shown);
    }
  }

  /** Indented newline-free lines stay newline-free. */
  lemma {:induction false} IndentedLines(lines: seq<string>, n: nat)
    requires n <= |lines|
    requires forall k :: 0 <= k < |lines| ==> '\n' !in lines[k]
    ensures var shown := Indent(lines[..n]);
            forall k :: 0 <= k < |shown| ==> '\n' !in shown[k]
  {
    var shown := Indent(lines[..n]);
    forall k | 0 <= k < |shown| ensures '\n' !in shown[k] {
      assert '\n' !in lines[k];
      assert shown[k] == "    " + lines[k];
    }
  }

  /** A long payload's preview is its shown lines joined, then the `...` line. */
  lemma {:induction false} PreviewJoinsLong(payload: string)
    requires |SplitLines(Strip(payload))| > PreviewLimit
    ensures var lines := SplitLines(Strip(payload));
            Preview(payload) == JoinLines(Indent(lines[..Shown(|lines|)]) + ["    ..."])
  {
    var lines := SplitLines(Strip(payload));
    var shown := Indent(lines[..Shown(|lines|)]);
    JoinLinesSnoc(shown, "    ...");
    assert JoinLines(shown) + "\n    ..." == JoinLines(shown) + "\n" + "    ...";
  }

  /** A short payload's preview is all its lines joined. */
  lemma {:induction false} PreviewJoinsShort(payload: string)
    requires |SplitLines(Strip(payload))| <= PreviewLimit
    ensures var lines := SplitLines(Strip(payload));
            Preview(payload) == JoinLines(Indent(lines[..Shown(|lines|)]))
  {
    var lines := SplitLines(Strip(payload));
    var shown := Indent(lines[..Shown(|lines|)]);
    assert Preview(payload) == JoinLines(shown) + "";
    assert JoinLines(shown) + "" == JoinLines(shown);
  }

  // ---------------------------------------------------------------------------
  // The box that replaces a diagram block

  const BoxTop := "\n<div style=\"background: #f0f7ff; border: 2px solid #0066CC; border-radius: 8px; padding: 15px; margin: 15px 0; page-break-inside: avoid;\">\n    <h4 style=\"color: #0066CC; margin-top: 0;\">\U{1F4CA} "
  const BoxMiddle := "</h4>\n    <p style=\"font-style: italic; color: #666; margin: 5px 0;\">Architecture visualization - refer to interactive HTML version for full diagram</p>\n    <pre style=\"background: #fff; padding: 10px; border-left: 3px solid #0066CC; margin: 10px 0; font-size: 8pt; overflow: hidden;\">\n"
  const BoxBottom := "\n    </pre>\n</div>\n"

  /** The heading of the `n`-th diagram: its type and `#n`. */
  function DiagramLabel(payload: string, n: nat): string {
    DiagramType(FirstLine(payload)) + " #" + Decimal(n)
  }

  function DiagramBox(payload: string, n: nat): string {
    BoxTop + DiagramLabel(payload, n) + BoxMiddle + Preview(payload) + BoxBottom
  }

  // ---------------------------------------------------------------------------
  // Recognising diagram blocks

  datatype DiagramMatch = DiagramMatch(payload: string, end: nat)

  /** The match of `r'```mermaid\n(.*?)```'` (with `re.DOTALL`) that starts
      exactly at index `i`, if any. */
  function MatchDiagram(s: string, i: nat): (m: Option<DiagramMatch>)
    requires i <= |s|
    ensures m.Some? <==> OccursAt(s, Opener, i) && OccursFrom(s, Fence, i + |Opener|)
    ensures m.Some? ==> i < m.value.end <= |s|
    ensures m.Some? ==> s[i..m.value.end] == Opener + m.value.payload + Fence
    ensures m.Some? ==> CutAtFirst(m.value.payload, Fence)
    ensures m.Some? ==> FindFrom(s, Fence, i + |Opener|) == Some(m.value.end - |Fence|)
  {
    if OccursAt(s, Opener, i) then
      match FindFrom(s, Fence, i + |Opener|)
      case Some(k) =>
        var payload := s[i + |Opener|..k];
        DiagramSlices(s, i, k);
        CutAtFirstFrom(s, Fence, i + |Opener|, k);
        Some(DiagramMatch(payload, k + |Fence|))
      case None => None
    else None
  }

  /** A block cut at its opener (index `i`) and its closing fence (index `k`). */
  lemma {:induction false} DiagramSlices(s: string, i: nat, k: nat)
    requires i + |Opener| <= k && OccursAt(s, Opener, i) && OccursAt(s, Fence, k)
    ensures s[i..k + |Fence|] == Opener + s[i + |Opener|..k] + Fence
  {
    assert s[i..k + |Fence|] == s[i..i + |Opener|] + s[i + |Opener|..k] + s[k..k + |Fence|];
  }

  /** A document cut into the pieces the substitution sees: characters it
      copies and the diagram blocks it replaces. */
  datatype Chunk = Plain(c: char) | Diagram(payload: string)

  /** How `re.sub` walks the document from index `i`: a block is taken at the
      first index where one matches, and the walk resumes after it. */
  function ScanDiagrams(s: string, i: nat): seq<Chunk>
    requires i <= |s|
    decreases |s| - i
  {
    if i == |s| then []
    else match MatchDiagram(s, i)
      case Some(m) => [Diagram(m.payload)] + ScanDiagrams(s, m.end)
      case None => [Plain(s[i])] + ScanDiagrams(s, i + 1)
  }

  /** The text a sequence of chunks was cut from. */
  function Source(cs: seq<Chunk>): string {
    if cs == [] then [] else ChunkSource(cs[0]) + Source(cs[1..])
  }

  /** The text one chunk was cut from. */
  function ChunkSource(c: Chunk): string {
    match c
    case Plain(ch) => [ch]
    case Diagram(p) => Opener + p + Fence
  }

  lemma {:induction false} SourceCons(c: Chunk, rest: seq<Chunk>)
    ensures Source([c] + rest) == ChunkSource(c) + Source(rest)
  {
    assert ([c] + rest)[0] == c && ([c] + rest)[1..] == rest;
  }

  /** The diagram scan at `i`, one step unfolded. */
  lemma {:induction false} ScanDiagramsMatch(s: string, i: nat, m: DiagramMatch)
    requires i < |s| && MatchDiagram(s, i) == Some(m)
    ensures ScanDiagrams(s, i) == [Diagram(m.payload)] + ScanDiagrams(s, m.end)
  {
  }

  lemma {:induction false} ScanDiagramsCopy(s: string, i: nat)
    requires i < |s| && MatchDiagram(s, i).None?
    ensures ScanDiagrams(s, i) == [Plain(s[i])] + ScanDiagrams(s, i + 1)
  {
  }

  /** How far one chunk moves the diagram counter. */
  function Weight(c: Chunk): nat {
    if c.Diagram? then 1 else 0
  }

  function DiagramCount(cs: seq<Chunk>): nat {
    if cs == [] then 0 else Weight(cs[0]) + DiagramCount(cs[1..])
  }

  /** The output for one chunk when the counter stands at `n`; `box` builds
      the replacement of a diagram from its payload and its number. */
  function ChunkOutput(c: Chunk, n: nat, box: (string, nat) -> string): string {
    match c
    case Plain(ch) => [ch]
    case Diagram(p) => box(p, n)
  }

  /** The output for a sequence of chunks, numbering diagrams from `n`. */
  function Render(cs: seq<Chunk>, n: nat, box: (string, nat) -> string): string {
    if cs == [] then [] else ChunkOutput(cs[0], n, box) + Render(cs[1..], n + Weight(cs[0]), box)
  }

  /** The first substitution of `preprocess_markdown`: the counter starts
      afresh, so the first block of every document is number 1. */
  function MermaidPass(s: string): string {
    Render(ScanDiagrams(s, 0), 1, DiagramBox)
  }

  /** The chunks tile the document: every character is either copied or
      inside exactly one recognised block. */
  lemma {:induction false} ScanDiagramsTiles(s: string, i: nat)
    requires i <= |s|
    ensures Source(ScanDiagrams(s, i)) == s[i..]
    decreases |s| - i
  {
    if i < |s| {
      match MatchDiagram(s, i)
      case Some(m) =>
        ScanDiagramsMatch(s, i, m);
        SourceCons(Diagram(m.payload), ScanDiagrams(s, m.end));
        ScanDiagramsTiles(s, m.end);
        assert s[i..] == s[i..m.end] + s[m.end..];
      case None =>
        ScanDiagramsCopy(s, i);
        SourceCons(Plain(s[i]), ScanDiagrams(s, i + 1));
        ScanDiagramsTiles(s, i + 1);
        assert s[i..] == [s[i]] + s[i + 1..];
    }
  }

  /** Every recognised payload stops at the first fence after its opener. */
  lemma {:induction false} DiagramPayloadsCut(s: string, i: nat)
    requires i <= |s|
    ensures forall k :: 0 <= k < |ScanDiagrams(s, i)| && ScanDiagrams(s, i)[k].Diagram? ==>
              CutAtFirst(ScanDiagrams(s, i)[k].payload, Fence)
    decreases |s| - i
  {
    if i < |s| {
      match MatchDiagram(s, i)
      case Some(m) => DiagramPayloadsCut(s, m.end);
      case None => DiagramPayloadsCut(s, i + 1);
    }
  }

  /** Rendering a concatenation: the second part is numbered on from where
      the first part left off. */
  lemma {:induction false} RenderAppend(a: seq<Chunk>, b: seq<Chunk>, n: nat, box: (string, nat) -> string)
    ensures Render(a + b, n, box) == Render(a, n, box) + Render(b, n + DiagramCount(a), box)
    ensures DiagramCount(a + b) == DiagramCount(a) + DiagramCount(b)
    decreases |a|
  {
    if a == [] {
      assert a + b == b;
    } else {
      var c, tail := a[0], a[1..];
      assert a == [c] + tail;
      assert a + b == [c] + (tail + b);
      RenderAppend(tail, b, n + Weight(c), box);
      RenderCons(c, tail + b, n, box);
      RenderCons(c, tail, n, box);
      var head, mid, rest := ChunkOutput(c, n, box), Render(tail, n + Weight(c), box),
        Render(b, n + Weight(c) + DiagramCount(tail), box);
      assert head + (mid + rest) == (head + mid) + rest;
    }
  }

  /** Rendering one chunk in front of others. */
  lemma {:induction false} RenderCons(c: Chunk, rest: seq<Chunk>, n: nat, box: (string, nat) -> string)
    ensures Render([c] + rest, n, box) == ChunkOutput(c, n, box) + Render(rest, n + Weight(c), box)
    ensures DiagramCount([c] + rest) == Weight(c) + DiagramCount(rest)
  {
    assert ([c] + rest)[0] == c && ([c] + rest)[1..] == rest;
  }

  /** Whatever the box, the diagram at chunk `j` gets the number after those
      of the diagrams before it. */
  lemma {:induction false} NumberedAt(cs: seq<Chunk>, j: nat, n: nat, box: (string, nat) -> string)
    requires j < |cs| && cs[j].Diagram?
    ensures var k := n + DiagramCount(cs[..j]);
            Render(cs, n, box) == Render(cs[..j], n, box) + box(cs[j].payload, k) + Render(cs[j + 1..], k + 1, box)
  {
    assert cs == cs[..j] + ([cs[j]] + cs[j + 1..]);
    RenderAppend(cs[..j], [cs[j]] + cs[j + 1..], n, box);
    RenderCons(cs[j], cs[j + 1..], n + DiagramCount(cs[..j]), box);
  }

  /** The k-th block of a document, counting from 1 in document order and
      whatever the types of the blocks before it, is labelled `#k`, and the
      blocks after it are numbered on from k + 1. */
  lemma {:induction false} DiagramNumbering(s: string, cs: seq<Chunk>, j: nat)
    requires cs == ScanDiagrams(s, 0)
    requires j < |cs| && cs[j].Diagram?
    ensures var k := 1 + DiagramCount(cs[..j]);
            MermaidPass(s)
            == Render(cs[..j], 1, DiagramBox) + DiagramBox(cs[j].payload, k) + Render(cs[j + 1..], k + 1, DiagramBox)
  {
    NumberedAt(cs, j, 1, DiagramBox);
  }

  /** One step of the diagram scan: a block matched at `i` is boxed with
      the current number `n`, text `done` already produced stays in front. */
  lemma {:induction false} DiagramStepMatch(s: string, i: nat, m: DiagramMatch, done: string, n: nat, box: (string, nat) -> string)
    requires i < |s| && MatchDiagram(s, i) == Some(m)
    ensures done + Render(ScanDiagrams(s, i), n, box)
            == (done + box(m.payload, n)) + Render(ScanDiagrams(s, m.end), n + 1, box)
  {
    var rest := ScanDiagrams(s, m.end);
    var cs := ScanDiagrams(s, i);
    ScanDiagramsMatch(s, i, m);
    assert cs[0] == Diagram(m.payload) && cs[1..] == rest;
    assert Render(cs, n, box) == box(m.payload, n) + Render(rest, n + 1, box);
  }

  /** One step of the diagram scan: without a match at `i` one character
      is copied. */
  lemma {:induction false} DiagramStepCopy(s: string, i: nat, done: string, n: nat, box: (string, nat) -> string)
    requires i < |s| && MatchDiagram(s, i).None?
    ensures done + Render(ScanDiagrams(s, i), n, box)
            == (done + [s[i]]) + Render(ScanDiagrams(s, i + 1), n, box)
  {
    var rest := ScanDiagrams(s, i + 1);
    var cs := ScanDiagrams(s, i);
    ScanDiagramsCopy(s, i);
    assert cs[0] == Plain(s[i]) && cs[1..] == rest;
    assert Render(cs, n, box) == [s[i]] + Render(rest, n, box);
  }

  /** Without diagram chunks, rendering gives back the source text. */
  lemma {:induction false} RenderWithoutDiagrams(cs: seq<Chunk>, n: nat, box: (string, nat) -> string)
    requires DiagramCount(cs) == 0
    ensures Render(cs, n, box) == Source(cs)
  {
    if cs != [] {
      RenderWithoutDiagrams(cs[1..], n, box);
    }
  }

  /** Where no opener is followed by a fence, the scan finds no block. */
  lemma {:induction false} ScanWithoutBlocks(s: string, i: nat)
    requires i <= |s|
    requires forall p: nat :: OccursAt(s, Opener, p) ==> !OccursFrom(s, Fence, p + |Opener|)
    ensures DiagramCount(ScanDiagrams(s, i)) == 0
    decreases |s| - i
  {
    if i < |s| {
      assert MatchDiagram(s, i).None?;
      ScanWithoutBlocks(s, i + 1);
    }
  }

  /** A document in which no opener `` ```mermaid\n `` is followed by a
      closing fence (in particular one without any opener) is unchanged. */
  lemma {:induction false} UnclosedUnchanged(s: string)
    requires forall p: nat :: OccursAt(s, Opener, p) ==> !OccursFrom(s, Fence, p + |Opener|)
    ensures MermaidPass(s) == s
  {
    ScanWithoutBlocks(s, 0);
    RenderWithoutDiagrams(ScanDiagrams(s, 0), 1, DiagramBox);
    ScanDiagramsTiles(s, 0);
  }

  // ---------------------------------------------------------------------------
  // Placeholder images

  /** What follows the caption of a placeholder image reference. */
  const PlaceholderTarget := "](https://via.placeholder.com/"

  /** The address of the placeholder image service. */
  const PlaceholderService := "https://via.placeholder.com/"

  /** The reference `![alt](https://via.placeholder.com/size)`. */
  function PlaceholderRef(alt: string, size: string): string {
    "![" + alt + PlaceholderTarget + size + ")"
  }

  /** The dashed box that replaces a placeholder image: only the caption is kept. */
  const ImageBoxOpen: string :=
    "<div style=\"background: #e8f4f8; border: 2px dashed #0066CC; padding: 20px; text-align: center; margin: 10px 0; border-radius: 5px;\"><strong>\U{1F5BC}\U{FE0F} "
  const ImageBoxClose: string := "</strong></div>"

  function ImageBox(alt: string): string {
    ImageBoxOpen + alt + ImageBoxClose
  }

  datatype PlaceholderMatch = PlaceholderMatch(alt: string, size: string, end: nat)

  /** The match of `r'!\[([^\]]*)\]\(https://via\.placeholder\.com/[^\)]+\)'`
      that starts exactly at index `i`, if any. The caption runs to the first
      `]`, the size to the first `)` and must not be empty. */
  function MatchPlaceholder(s: string, i: nat): (m: Option<PlaceholderMatch>)
    requires i <= |s|
    ensures m.Some? ==> i < m.value.end <= |s|
    ensures m.Some? ==> s[i..m.value.end] == PlaceholderRef(m.value.alt, m.value.size)
    ensures m.Some? ==> ']' !in m.value.alt && m.value.size != [] && ')' !in m.value.size
  {
    if OccursAt(s, "![", i) then
      match FindChar(s, ']', i + 2)
      case Some(q) =>
        if OccursAt(s, PlaceholderTarget, q) then
          match FindChar(s, ')', q + |PlaceholderTarget|)
          case Some(e) =>
            if e > q + |PlaceholderTarget| then
              var alt, size := s[i + 2..q], s[q + |PlaceholderTarget|..e];
              PlaceholderSlices(s, i, q, e);
              Some(PlaceholderMatch(alt, size, e + 1))
            else None
          case None => None
        else None
      case None => None
    else None
  }

  /** A reference cut at its `]` (index `q`) and its `)` (index `e`). */
  lemma {:induction false} PlaceholderSlices(s: string, i: nat, q: nat, e: nat)
    requires i + 2 <= q && q + |PlaceholderTarget| <= e < |s|
    requires OccursAt(s, "![", i) && OccursAt(s, PlaceholderTarget, q) && s[e] == ')'
    ensures s[i..e + 1] == PlaceholderRef(s[i + 2..q], s[q + |PlaceholderTarget|..e])
  {
    var u := q + |PlaceholderTarget|;
    assert s[e..e + 1] == ")";
    assert s[i..e + 1] == s[i..i + 2] + s[i + 2..q] + s[q..u] + s[u..e] + s[e..e + 1];
  }

  /** The pieces of a reference that occurs at index `i`. */
  lemma {:induction false} PlaceholderParts(s: string, i: nat, alt: string, size: string)
    requires OccursAt(s, PlaceholderRef(alt, size), i)
    ensures var q := i + 2 + |alt|;
            var u := q + |PlaceholderTarget|;
            var e := u + |size|;
            && e < |s|
            && OccursAt(s, "![", i) && s[i + 2..q] == alt && OccursAt(s, PlaceholderTarget, q)
            && s[u..e] == size && s[e] == ')' && s[q] == ']'
  {
    var q := i + 2 + |alt|;
    var u := q + |PlaceholderTarget|;
    var e := u + |size|;
    OccursAtSplit(s, "![" + alt + PlaceholderTarget + size, ")", i);
    OccursAtSplit(s, "![" + alt + PlaceholderTarget, size, i);
    OccursAtSplit(s, "![" + alt, PlaceholderTarget, i);
    OccursAtSplit(s, "![", alt, i);
    assert s[e] == s[e..e + 1][0];
    assert s[q] == s[q..u][0];
  }

  /** The match at `i` once the closing `]` and `)` have been located. */
  lemma {:induction false} PlaceholderMatchAt(s: string, i: nat, q: nat, e: nat)
    requires i <= |s| && OccursAt(s, "![", i) && FindChar(s, ']', i + 2) == Some(q)
    requires OccursAt(s, PlaceholderTarget, q)
    requires FindChar(s, ')', q + |PlaceholderTarget|) == Some(e) && e > q + |PlaceholderTarget|
    ensures MatchPlaceholder(s, i)
            == Some(PlaceholderMatch(s[i + 2..q], s[q + |PlaceholderTarget|..e], e + 1))
  {
  }

  /** Every placeholder reference is recognised where it starts. */
  lemma {:induction false} PlaceholderRecognised(s: string, i: nat, alt: string, size: string)
    requires i <= |s| && OccursAt(s, PlaceholderRef(alt, size), i)
    requires ']' !in alt && size != [] && ')' !in size
    ensures MatchPlaceholder(s, i) == Some(PlaceholderMatch(alt, size, i + |PlaceholderRef(alt, size)|))
  {
    var q := i + 2 + |alt|;
    var u := q + |PlaceholderTarget|;
    var e := u + |size|;
    PlaceholderParts(s, i, alt, size);
    FindCharAt(s, ']', i + 2, q);
    FindCharAt(s, ')', u, e);
    PlaceholderMatchAt(s, i, q, e);
  }

  datatype ImageChunk = Verbatim(c: char) | Placeholder(alt: string, size: string)

  /** How the second `re.sub` walks its input from index `i`. */
  function ScanImages(s: string, i: nat): seq<ImageChunk>
    requires i <= |s|
    decreases |s| - i
  {
    if i == |s| then []
    else match MatchPlaceholder(s, i)
      case Some(m) => [Placeholder(m.alt, m.size)] + ScanImages(s, m.end)
      case None => [Verbatim(s[i])] + ScanImages(s, i + 1)
  }

  /** The text one image chunk was cut from. */
  function ImageChunkSource(c: ImageChunk): string {
    match c
    case Verbatim(ch) => [ch]
    case Placeholder(alt, size) => PlaceholderRef(alt, size)
  }

  function ImageSource(cs: seq<ImageChunk>): string {
    if cs == [] then [] else ImageChunkSource(cs[0]) + ImageSource(cs[1..])
  }

  lemma {:induction false} ImageSourceCons(c: ImageChunk, rest: seq<ImageChunk>)
    ensures ImageSource([c] + rest) == ImageChunkSource(c) + ImageSource(rest)
  {
    assert ([c] + rest)[0] == c && ([c] + rest)[1..] == rest;
  }

  /** The image scan at `i`, one step unfolded. */
  lemma {:induction false} ScanImagesMatch(s: string, i: nat, m: PlaceholderMatch)
    requires i < |s| && MatchPlaceholder(s, i) == Some(m)
    ensures ScanImages(s, i) == [Placeholder(m.alt, m.size)] + ScanImages(s, m.end)
  {
  }

  lemma {:induction false} ScanImagesCopy(s: string, i: nat)
    requires i < |s| && MatchPlaceholder(s, i).None?
    ensures ScanImages(s, i) == [Verbatim(s[i])] + ScanImages(s, i + 1)
  {
  }

  /** What one image chunk becomes in the output. */
  function ImageOutput(c: ImageChunk): string {
    match c
    case Verbatim(ch) => [ch]
    case Placeholder(alt, _) => ImageBox(alt)
  }

  function RenderImages(cs: seq<ImageChunk>): string {
    if cs == [] then [] else ImageOutput(cs[0]) + RenderImages(cs[1..])
  }

  /** The second substitution of `preprocess_markdown`. */
  function ImagePass(s: string): string {
    RenderImages(ScanImages(s, 0))
  }

  /** The image chunks tile their input. */
  lemma {:induction false} ScanImagesTiles(s: string, i: nat)
    requires i <= |s|
    ensures ImageSource(ScanImages(s, i)) == s[i..]
    decreases |s| - i
  {
    if i < |s| {
      match MatchPlaceholder(s, i)
      case Some(m) =>
        ScanImagesMatch(s, i, m);
        ImageSourceCons(Placeholder(m.alt, m.size), ScanImages(s, m.end));
        ScanImagesTiles(s, m.end);
        assert s[i..] == s[i..m.end] + s[m.end..];
      case None =>
        ScanImagesCopy(s, i);
        ImageSourceCons(Verbatim(s[i]), ScanImages(s, i + 1));
        ScanImagesTiles(s, i + 1);
        assert s[i..] == [s[i]] + s[i + 1..];
    }
  }

  /** Every replaced reference had a caption without `]` and a non-empty
      size without `)`. */
  lemma {:induction false} PlaceholdersWellFormed(s: string, i: nat)
    requires i <= |s|
    ensures forall k :: 0 <= k < |ScanImages(s, i)| && ScanImages(s, i)[k].Placeholder? ==>
              var c := ScanImages(s, i)[k]; ']' !in c.alt && c.size != [] && ')' !in c.size
    decreases |s| - i
  {
    if i < |s| {
      match MatchPlaceholder(s, i)
      case Some(m) => PlaceholdersWellFormed(s, m.end);
      case None => PlaceholdersWellFormed(s, i + 1);
    }
  }

  /** One step of the image scan: a reference matched at `i` becomes its
      box, after the text `done` already produced. */
  lemma {:induction false} ImageStepMatch(s: string, i: nat, m: PlaceholderMatch, done: string)
    requires i < |s| && MatchPlaceholder(s, i) == Some(m)
    ensures done + RenderImages(ScanImages(s, i)) == (done + ImageBox(m.alt)) + RenderImages(ScanImages(s, m.end))
  {
    var rest := ScanImages(s, m.end);
    var cs := ScanImages(s, i);
    ScanImagesMatch(s, i, m);
    assert cs[0] == Placeholder(m.alt, m.size) && cs[1..] == rest;
    assert RenderImages(cs) == ImageOutput(cs[0]) + RenderImages(rest);
  }

  /** One step of the image scan: without a match at `i` one character is copied. */
  lemma {:induction false} ImageStepCopy(s: string, i: nat, done: string)
    requires i < |s| && MatchPlaceholder(s, i).None?
    ensures done + RenderImages(ScanImages(s, i)) == (done + [s[i]]) + RenderImages(ScanImages(s, i + 1))
  {
    var rest := ScanImages(s, i + 1);
    var cs := ScanImages(s, i);
    ScanImagesCopy(s, i);
    assert cs[0] == Verbatim(s[i]) && cs[1..] == rest;
    assert RenderImages(cs) == ImageOutput(cs[0]) + RenderImages(rest);
  }

  /** A match at `i` is an occurrence of the reference it reads. */
  lemma {:induction false} MatchIsReference(s: string, i: nat)
    requires i <= |s|
    ensures var m := MatchPlaceholder(s, i);
            m.Some? ==> OccursAt(s, PlaceholderRef(m.value.alt, m.value.size), i)
  {
  }

  /** No placeholder reference the pattern accepts occurs in `s`. */
  ghost predicate NoPlaceholder(s: string) {
    forall p: nat, alt: string, size: string ::
      ']' !in alt && size != [] && ')' !in size ==> !OccursAt(s, PlaceholderRef(alt, size), p)
  }

  /** Where no placeholder reference occurs, every chunk is copied. */
  lemma {:induction false} ImagesWithoutPlaceholders(s: string, i: nat)
    requires i <= |s| && NoPlaceholder(s)
    ensures RenderImages(ScanImages(s, i)) == s[i..]
    decreases |s| - i
  {
    if i < |s| {
      MatchIsReference(s, i);
      ImageStepCopy(s, i, []);
      ImagesWithoutPlaceholders(s, i + 1);
      assert s[i..] == [s[i]] + s[i + 1..];
    }
  }

  /** Text without a placeholder reference passes through the image pass
      unchanged, whatever other images and links it holds. */
  lemma {:induction false} ImagePassKeepsOtherText(s: string)
    requires NoPlaceholder(s)
    ensures ImagePass(s) == s
  {
    ImagesWithoutPlaceholders(s, 0);
  }

  /** An occurrence of the placeholder target contains the service address. */
  lemma {:induction false} TargetAt(s: string, q: nat)
    ensures OccursAt(s, PlaceholderTarget, q) ==> OccursAt(s, PlaceholderService, q + 2)
  {
    assert PlaceholderTarget == "](" + PlaceholderService;
    if OccursAt(s, PlaceholderTarget, q) {
      OccursAtSplit(s, "](", PlaceholderService, q);
    }
  }

  /** An address closed by `)` that does not start with the service address
      is not followed by it either. */
  lemma {:induction false} NotServiceAt(s: string, u: nat, url: string)
    requires OccursAt(s, url + ")", u) && !StartsWith(url, PlaceholderService)
    ensures !OccursAt(s, PlaceholderService, u)
  {
    var n := |PlaceholderService|;
    if u + n <= |s| {
      var w := s[u..u + n];
      var closed := s[u..u + |url| + 1];
      assert closed == url + ")";
      if |url| < n {
        assert w[|url|] == closed[|url|] == ')';
        assert ')' !in PlaceholderService;
        assert w[|url|] != PlaceholderService[|url|];
      } else {
        assert url[..n] != PlaceholderService;
        var k :| 0 <= k < n && url[k] != PlaceholderService[k];
        assert w[k] == closed[k] == url[k];
        assert w[k] != PlaceholderService[k];
      }
    }
  }

  /** An image reference `![alt](url)` whose address is not on the
      placeholder service is not matched where it starts. */
  lemma {:induction false} OtherImageNotMatched(s: string, i: nat, alt: string, url: string)
    requires i <= |s| && OccursAt(s, "![" + alt + "](" + url + ")", i)
    requires ']' !in alt && !StartsWith(url, PlaceholderService)
    ensures MatchPlaceholder(s, i).None?
  {
    var q := i + 2 + |alt|;
    assert "![" + alt + "](" + url + ")" == ("![" + alt + "](") + (url + ")");
    OccursAtSplit(s, "![" + alt + "](", url + ")", i);
    OccursAtSplit(s, "![" + alt, "](", i);
    OccursAtSplit(s, "![", alt, i);
    assert s[q] == s[q..q + 2][0];
    FindCharAt(s, ']', i + 2, q);
    NotServiceAt(s, q + 2, url);
    TargetAt(s, q);
  }

  /** Text without the placeholder address has no placeholder reference. */
  lemma {:induction false} NoServiceNoPlaceholder(s: string)
    requires !OccursFrom(s, PlaceholderTarget, 0)
    ensures NoPlaceholder(s)
  {
    forall p: nat, alt: string, size: string | ']' !in alt && size != [] && ')' !in size
      ensures !OccursAt(s, PlaceholderRef(alt, size), p)
    {
      RefHasTarget(s, p, alt, size);
    }
  }

  /** A reference holds the placeholder target right after its caption. */
  lemma {:induction false} RefHasTarget(s: string, p: nat, alt: string, size: string)
    ensures OccursAt(s, PlaceholderRef(alt, size), p) ==> OccursAt(s, PlaceholderTarget, p + 2 + |alt|)
  {
    if OccursAt(s, PlaceholderRef(alt, size), p) {
      PlaceholderParts(s, p, alt, size);
    }
  }

  /** A placeholder reference on its own becomes the box with its caption;
      its address is dropped. */
  lemma {:induction false} PlaceholderBecomesBox(alt: string, size: string)
    requires ']' !in alt && size != [] && ')' !in size
    ensures ImagePass(PlaceholderRef(alt, size)) == ImageBox(alt)
  {
    var s := PlaceholderRef(alt, size);
    assert OccursAt(s, s, 0);
    PlaceholderRecognised(s, 0, alt, size);
    ImageStepMatch(s, 0, PlaceholderMatch(alt, size, |s|), []);
    assert ScanImages(s, |s|) == [];
  }

  /** A document without a complete diagram block and without a placeholder
      reference comes out of the preprocessing as it went in. */
  lemma {:induction false} PlainDocumentUnchanged(s: string)
    requires forall p: nat :: OccursAt(s, Opener, p) ==> !OccursFrom(s, Fence, p + |Opener|)
    requires NoPlaceholder(s)
    ensures ImagePass(MermaidPass(s)) == s
  {
    UnclosedUnchanged(s);
    ImagePassKeepsOtherText(s);
  }

  // ---------------------------------------------------------------------------
  // The preprocessing step

  /** The first `re.sub` of `preprocess_markdown`. `box` plays the part of
      the callback `replace_mermaid`; the counter it keeps across calls is
      kept here and handed to it, already incremented, with each payload. */
  method SubstituteDiagrams(content: string, box: (string, nat) -> string) returns (diagrams: string)
    ensures diagrams == Render(ScanDiagrams(content, 0), 1, box)
  {
    ghost var target := Render(ScanDiagrams(content, 0), 1, box);
    diagrams := "";
    var diagramCount := 0;
    var i := 0;
    while i < |content|
      invariant i <= |content|
      invariant diagrams + Render(ScanDiagrams(content, i), diagramCount + 1, box) == target
      decreases |content| - i
    {
      match MatchDiagram(content, i)
      case Some(m) =>
        DiagramStepMatch(content, i, m, diagrams, diagramCount + 1, box);
        diagramCount := diagramCount + 1;
        diagrams := diagrams + box(m.payload, diagramCount);
        i := m.end;
      case None =>
        DiagramStepCopy(content, i, diagrams, diagramCount + 1, box);
        diagrams := diagrams + [content[i]];
        i := i + 1;
    }
    assert ScanDiagrams(content, i) == [];
  }

  /** The second `re.sub` of `preprocess_markdown`. */
  method SubstitutePlaceholders(text: string) returns (result: string)
    ensures result == ImagePass(text)
  {
    ghost var target := ImagePass(text);
    result := "";
    var j := 0;
    assert "" + ImagePass(text) == ImagePass(text);
    while j < |text|
      invariant j <= |text|
      invariant result + RenderImages(ScanImages(text, j)) == target
      decreases |text| - j
    {
      match MatchPlaceholder(text, j)
      case Some(m) =>
        ImageStepMatch(text, j, m, result);
        result := result + ImageBox(m.alt);
        j := m.end;
      case None =>
        ImageStepCopy(text, j, result);
        result := result + [text[j]];
        j := j + 1;
    }
    assert ScanImages(text, j) == [];
  }

  /** `preprocess_markdown`: the diagram substitution, then the placeholder
      substitution over its output. */
  method PreprocessMarkdown(content: string) returns (result: string)
    ensures result == ImagePass(MermaidPass(content))
  {
    var diagrams := SubstituteDiagrams(content, DiagramBox);
    result := SubstitutePlaceholders(diagrams);
  }
}
