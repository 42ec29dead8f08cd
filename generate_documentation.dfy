/** The diagram handling of the HTML generator (`process_mermaid_blocks`):
    every diagram block becomes a `<div class="mermaid">` holding the
    diagram source for the browser to draw; and the name of the page
    written for each Markdown file. */
module DocGen {
  import opened Text

  /** The tag that opens a diagram block in `r'```mermaid\s*\n([\s\S]*?)```'`;
      whitespace up to a line break follows it. */
  const Tag := "```mermaid"

  /** The div that replaces a block: only the stripped diagram source is kept. */
  function MermaidDiv(payload: string): string {
    "<div class=\"mermaid\">\n" + Strip(payload) + "\n</div>"
  }

  // ---------------------------------------------------------------------------
  // Recognising diagram blocks

  /** Where the opener that follows a tag ends (`a` is the index right after
      the tag): `\s*` is greedy and gives characters back only until a `\n`
      follows, so the opener ends after the LAST line break of the
      whitespace run. None when that run holds no line break. */
  function OpenerEnd(s: string, a: nat): (p: Option<nat>)
    requires a <= |s|
    ensures p.Some? ==> a < p.value <= |s| && s[p.value - 1] == '\n'
    decreases |s| - a
  {
    if a < |s| && IsSpace(s[a]) then
      match OpenerEnd(s, a + 1)
      case Some(p) => Some(p)
      case None => if s[a] == '\n' then Some(a + 1) else None
    else None
  }

  /** The opener exists exactly when the whitespace run after the tag holds
      a line break; it is whitespace, and no line break of the run lies
      beyond it. */
  lemma {:induction false} OpenerEndSpec(s: string, a: nat)
    requires a <= |s|
    ensures OpenerEnd(s, a).Some? <==> '\n' in s[a..SpaceRunEnd(s, a)]
    ensures OpenerEnd(s, a).Some? ==> OpenerEnd(s, a).value <= SpaceRunEnd(s, a)
    ensures OpenerEnd(s, a).Some? ==> forall j :: a <= j < OpenerEnd(s, a).value ==> IsSpace(s[j])
    ensures OpenerEnd(s, a).Some? ==>
      forall j :: OpenerEnd(s, a).value <= j < SpaceRunEnd(s, a) ==> s[j] != '\n'
    decreases |s| - a
  {
    var w := SpaceRunEnd(s, a);
    if a < |s| && IsSpace(s[a]) {
      OpenerEndSpec(s, a + 1);
      assert w == SpaceRunEnd(s, a + 1);
      assert s[a..w] == [s[a]] + s[a + 1..w];
      if OpenerEnd(s, a + 1).None? && s[a] == '\n' {
        forall j | a + 1 <= j < w ensures s[j] != '\n' {
          assert s[j] == s[a + 1..w][j - a - 1];
        }
      }
    } else {
      assert w == a;
    }
  }

  /** A match at index `i`: the opener runs from the end of the tag to
      `bodyStart`, the captured group from there to `fence`, where the
      closing fence starts. */
  datatype BlockMatch = BlockMatch(bodyStart: nat, fence: nat)

  /** The match that starts exactly at index `i`, if any: a tag, its opener,
      and the lazy group up to the first fence after the tag. No shorter
      choice of opener can succeed where the greedy one fails, because the
      whitespace it would leave to the group holds no backtick. */
  function MatchBlock(s: string, i: nat): (m: Option<BlockMatch>)
    requires i <= |s|
    ensures m.Some? ==> i + |Tag| <= |s| && OpenerEnd(s, i + |Tag|) == Some(m.value.bodyStart)
    ensures m.Some? ==> m.value.bodyStart <= m.value.fence && m.value.fence + |Fence| <= |s|
  {
    if !OccursAt(s, Tag, i) then None
    else
      var a := i + |Tag|;
      match OpenerEnd(s, a)
      case None => None
      case Some(p) =>
        match FindFrom(s, Fence, p)
        case None => None
        case Some(f) => Some(BlockMatch(p, f))
  }

  /** A block starts at `i` exactly when the tag is there, the whitespace
      after it holds a line break and a fence follows somewhere; the group
      then ends at the first fence after the tag. */
  lemma {:induction false} MatchBlockSpec(s: string, i: nat)
    requires i <= |s|
    ensures MatchBlock(s, i).Some? <==>
      OccursAt(s, Tag, i) && '\n' in s[i + |Tag|..SpaceRunEnd(s, i + |Tag|)]
      && OccursFrom(s, Fence, i + |Tag|)
    ensures MatchBlock(s, i).Some? ==> FindFrom(s, Fence, i + |Tag|) == Some(MatchBlock(s, i).value.fence)
  {
    if OccursAt(s, Tag, i) {
      var a := i + |Tag|;
      OpenerEndSpec(s, a);
      if OpenerEnd(s, a).Some? {
        var p := OpenerEnd(s, a).value;
        NoFenceInSpace(s, a, p);
        FindFromSkip(s, Fence, a, p);
      }
    }
  }

  /** What a found block rests on: the tag at `i`, and the first fence after
      it where the group ends. */
  lemma {:induction false} MatchBlockFound(s: string, i: nat, m: BlockMatch)
    requires i <= |s| && MatchBlock(s, i) == Some(m)
    ensures OccursAt(s, Tag, i) && OccursAt(s, Fence, m.fence)
    ensures FindFrom(s, Fence, i + |Tag|) == Some(m.fence)
  {
    MatchBlockSpec(s, i);
  }

  /** No fence starts inside a whitespace run. */
  lemma {:induction false} NoFenceInSpace(s: string, a: nat, w: nat)
    requires a <= w <= |s|
    requires forall j :: a <= j < w ==> IsSpace(s[j])
    ensures forall j :: a <= j < w ==> !OccursAt(s, Fence, j)
  {
    forall j | a <= j < w ensures !OccursAt(s, Fence, j) {
      if j + |Fence| <= |s| {
        assert s[j..j + |Fence|][0] == s[j];
      }
    }
  }

  // ---------------------------------------------------------------------------
  // The substitution

  /** A document cut into the pieces `re.sub` sees: characters it copies and
      the blocks it replaces. */
  datatype Piece = Plain(c: char) | Block(opener: string, payload: string)

  /** The block a match at `i` cuts out of `s`. */
  function MatchedBlock(s: string, i: nat, m: BlockMatch): Piece
    requires i + |Tag| <= m.bodyStart <= m.fence <= |s|
  {
    Block(s[i + |Tag|..m.bodyStart], s[m.bodyStart..m.fence])
  }

  /** How `re.sub` walks the document from index `i`. */
  function ScanBlocks(s: string, i: nat): seq<Piece>
    requires i <= |s|
    decreases |s| - i
  {
    if i == |s| then []
    else match MatchBlock(s, i)
      case Some(m) => [MatchedBlock(s, i, m)] + ScanBlocks(s, m.fence + |Fence|)
      case None => [Plain(s[i])] + ScanBlocks(s, i + 1)
  }

  /** The text one piece was cut from. */
  function PieceSource(p: Piece): string {
    match p
    case Plain(c) => [c]
    case Block(opener, payload) => Tag + opener + payload + Fence
  }

  function Source(ps: seq<Piece>): string {
    if ps == [] then [] else PieceSource(ps[0]) + Source(ps[1..])
  }

  /** What one piece becomes, `div` giving the replacement of a block.
      Unlike the PDF preprocessing, nothing is counted: the output for a
      block depends on that block alone. */
  function PieceOutput(p: Piece, div: string -> string): string {
    match p
    case Plain(c) => [c]
    case Block(_, payload) => div(payload)
  }

  function Render(ps: seq<Piece>, div: string -> string): string {
    if ps == [] then [] else PieceOutput(ps[0], div) + Render(ps[1..], div)
  }

  /** `process_mermaid_blocks`. */
  function ProcessMermaidBlocks(content: string): string {
    Render(ScanBlocks(content, 0), MermaidDiv)
  }

  lemma {:induction false} SourceCons(p: Piece, rest: seq<Piece>)
    ensures Source([p] + rest) == PieceSource(p) + Source(rest)
  {
    assert ([p] + rest)[0] == p && ([p] + rest)[1..] == rest;
  }

  lemma {:induction false} RenderCons(p: Piece, rest: seq<Piece>, div: string -> string)
    ensures Render([p] + rest, div) == PieceOutput(p, div) + Render(rest, div)
  {
    assert ([p] + rest)[0] == p && ([p] + rest)[1..] == rest;
  }

  /** The scan at `i`, one step unfolded. */
  lemma {:induction false} ScanBlocksMatch(s: string, i: nat, m: BlockMatch)
    requires i < |s| && MatchBlock(s, i) == Some(m)
    ensures ScanBlocks(s, i) == [MatchedBlock(s, i, m)] + ScanBlocks(s, m.fence + |Fence|)
  {
  }

  lemma {:induction false} ScanBlocksCopy(s: string, i: nat)
    requires i < |s| && MatchBlock(s, i).None?
    ensures ScanBlocks(s, i) == [Plain(s[i])] + ScanBlocks(s, i + 1)
  {
  }

  /** A tag at `i`, an opener up to `p` and a payload up to a fence at `f`
      make up exactly the text from `i` to the end of that fence. */
  lemma {:induction false} BlockSlices(s: string, i: nat, p: nat, f: nat)
    requires i + |Tag| <= p <= f && OccursAt(s, Tag, i) && OccursAt(s, Fence, f)
    ensures PieceSource(Block(s[i + |Tag|..p], s[p..f])) == s[i..f + |Fence|]
  {
    var a := i + |Tag|;
    assert s[i..f + |Fence|] == s[i..a] + s[a..p] + s[p..f] + s[f..f + |Fence|];
  }

  /** A matched block in front of pieces that tile the rest. */
  lemma {:induction false} BlockTileStep(s: string, i: nat, m: BlockMatch)
    requires i < |s| && MatchBlock(s, i) == Some(m)
    requires Source(ScanBlocks(s, m.fence + |Fence|)) == s[m.fence + |Fence|..]
    ensures Source(ScanBlocks(s, i)) == s[i..]
  {
    ScanBlocksMatch(s, i, m);
    MatchBlockFound(s, i, m);
    BlockTile(s, i, m.bodyStart, m.fence, ScanBlocks(s, m.fence + |Fence|));
  }

  lemma {:induction false} BlockTile(s: string, i: nat, p: nat, f: nat, rest: seq<Piece>)
    requires i + |Tag| <= p <= f && OccursAt(s, Tag, i) && OccursAt(s, Fence, f)
    requires Source(rest) == s[f + |Fence|..]
    ensures Source([Block(s[i + |Tag|..p], s[p..f])] + rest) == s[i..]
  {
    BlockSlices(s, i, p, f);
    TileStep(s, i, f + |Fence|, Block(s[i + |Tag|..p], s[p..f]), rest);
  }

  /** The pieces tile the document: every character is either copied or
      inside exactly one recognised block. */
  lemma {:induction false} ScanBlocksTiles(s: string, i: nat)
    requires i <= |s|
    ensures Source(ScanBlocks(s, i)) == s[i..]
    decreases |s| - i
  {
    if i < |s| {
      match MatchBlock(s, i)
      case Some(m) =>
        ScanBlocksTiles(s, m.fence + |Fence|);
        BlockTileStep(s, i, m);
      case None =>
        ScanBlocksTiles(s, i + 1);
        CopyTileStep(s, i);
    }
  }

  /** A copied character in front of pieces that tile the rest. */
  lemma {:induction false} CopyTileStep(s: string, i: nat)
    requires i < |s| && MatchBlock(s, i).None? && Source(ScanBlocks(s, i + 1)) == s[i + 1..]
    ensures Source(ScanBlocks(s, i)) == s[i..]
  {
    ScanBlocksCopy(s, i);
    CopyTile(s, i, ScanBlocks(s, i + 1));
  }

  lemma {:induction false} CopyTile(s: string, i: nat, rest: seq<Piece>)
    requires i < |s| && Source(rest) == s[i + 1..]
    ensures Source([Plain(s[i])] + rest) == s[i..]
  {
    assert s[i..i + 1] == [s[i]];
    TileStep(s, i, i + 1, Plain(s[i]), rest);
  }

  /** A piece cut from `s[i..e]` in front of pieces that tile the rest. */
  lemma {:induction false} TileStep(s: string, i: nat, e: nat, p: Piece, rest: seq<Piece>)
    requires i <= e <= |s| && PieceSource(p) == s[i..e] && Source(rest) == s[e..]
    ensures Source([p] + rest) == s[i..]
  {
    SourceCons(p, rest);
    assert s[i..] == s[i..e] + s[e..];
  }

  /** A block whose opener is whitespace ending in a line break and whose
      payload stops at the first fence; a copied character is always fine. */
  ghost predicate WellFormed(p: Piece) {
    p.Block? ==>
      AllSpace(p.opener) && p.opener != [] && p.opener[|p.opener| - 1] == '\n'
      && CutAtFirst(p.payload, Fence)
  }

  /** A whitespace opener ending in a line break, then a payload up to the
      first fence after it, make a well-formed block. */
  lemma {:induction false} BlockWellFormed(s: string, a: nat, p: nat, f: nat)
    requires a < p <= f && OccursAt(s, Fence, f) && s[p - 1] == '\n'
    requires forall j :: a <= j < p ==> IsSpace(s[j])
    requires forall j :: p <= j < f ==> !OccursAt(s, Fence, j)
    ensures WellFormed(Block(s[a..p], s[p..f]))
  {
    var opener := s[a..p];
    assert AllSpace(opener) by {
      forall x | 0 <= x < |opener| ensures IsSpace(opener[x]) { assert opener[x] == s[a + x]; }
    }
    assert opener[|opener| - 1] == s[p - 1];
    CutAtFirstFrom(s, Fence, p, f);
  }

  lemma {:induction false} MatchedBlockWellFormed(s: string, i: nat, m: BlockMatch)
    requires i <= |s| && MatchBlock(s, i) == Some(m)
    ensures WellFormed(MatchedBlock(s, i, m))
  {
    MatchBlockFound(s, i, m);
    OpenerWellFormed(s, i + |Tag|, m.bodyStart, m.fence);
  }

  /** The block between the opener found from `a` and the first fence after
      the tag is well formed. */
  lemma {:induction false} OpenerWellFormed(s: string, a: nat, p: nat, f: nat)
    requires a <= |s| && OpenerEnd(s, a) == Some(p) && p <= f
    requires FindFrom(s, Fence, a) == Some(f)
    ensures WellFormed(Block(s[a..p], s[p..f]))
  {
    OpenerEndSpec(s, a);
    BlockWellFormed(s, a, p, f);
  }

  /** Every piece of `ps` is well formed. */
  ghost predicate AllWellFormed(ps: seq<Piece>) {
    ps == [] || (WellFormed(ps[0]) && AllWellFormed(ps[1..]))
  }

  lemma {:induction false} AllWellFormedCons(p: Piece, rest: seq<Piece>)
    requires WellFormed(p) && AllWellFormed(rest)
    ensures AllWellFormed([p] + rest)
  {
    assert ([p] + rest)[0] == p && ([p] + rest)[1..] == rest;
  }

  lemma {:induction false} BlockWellFormedStep(s: string, i: nat, m: BlockMatch)
    requires i < |s| && MatchBlock(s, i) == Some(m) && AllWellFormed(ScanBlocks(s, m.fence + |Fence|))
    ensures AllWellFormed(ScanBlocks(s, i))
  {
    ScanBlocksMatch(s, i, m);
    MatchedBlockWellFormed(s, i, m);
    AllWellFormedCons(MatchedBlock(s, i, m), ScanBlocks(s, m.fence + |Fence|));
  }

  lemma {:induction false} CopyWellFormedStep(s: string, i: nat)
    requires i < |s| && MatchBlock(s, i).None? && AllWellFormed(ScanBlocks(s, i + 1))
    ensures AllWellFormed(ScanBlocks(s, i))
  {
    ScanBlocksCopy(s, i);
    AllWellFormedCons(Plain(s[i]), ScanBlocks(s, i + 1));
  }

  /** Every recognised block is well formed. */
  lemma {:induction false} BlocksWellFormed(s: string, i: nat)
    requires i <= |s|
    ensures AllWellFormed(ScanBlocks(s, i))
    decreases |s| - i
  {
    if i < |s| {
      match MatchBlock(s, i)
      case Some(m) =>
        BlocksWellFormed(s, m.fence + |Fence|);
        BlockWellFormedStep(s, i, m);
      case None =>
        BlocksWellFormed(s, i + 1);
        CopyWellFormedStep(s, i);
    }
  }

  /** No counter is threaded through the blocks: rendering distributes over
      concatenation. */
  lemma {:induction false} RenderAppend(a: seq<Piece>, b: seq<Piece>, div: string -> string)
    ensures Render(a + b, div) == Render(a, div) + Render(b, div)
    decreases |a|
  {
    if a == [] {
      assert a + b == b;
    } else {
      var p, tail := a[0], a[1..];
      assert a == [p] + tail;
      assert a + b == [p] + (tail + b);
      RenderAppend(tail, b, div);
      RenderCons(p, tail + b, div);
      RenderCons(p, tail, div);
      var head, mid, rest := PieceOutput(p, div), Render(tail, div), Render(b, div);
      assert head + (mid + rest) == (head + mid) + rest;
    }
  }

  /** Without blocks, rendering gives back the source text. */
  lemma {:induction false} RenderWithoutBlocks(ps: seq<Piece>, div: string -> string)
    requires forall k :: 0 <= k < |ps| ==> ps[k].Plain?
    ensures Render(ps, div) == Source(ps)
    decreases |ps|
  {
    if ps != [] {
      RenderWithoutBlocks(ps[1..], div);
    }
  }

  /** No block opens anywhere in `s`: every tag that a fence follows is
      followed by whitespace without a line break, then by something else. */
  ghost predicate NoBlock(s: string) {
    forall p: nat :: OccursAt(s, Tag, p) && OccursFrom(s, Fence, p + |Tag|) ==>
      '\n' !in s[p + |Tag|..SpaceRunEnd(s, p + |Tag|)]
  }

  /** Where no block opens, the scan copies every character. */
  lemma {:induction false} ScanWithoutBlocks(s: string, i: nat)
    requires i <= |s|
    requires NoBlock(s)
    ensures forall k :: 0 <= k < |ScanBlocks(s, i)| ==> ScanBlocks(s, i)[k].Plain?
    decreases |s| - i
  {
    if i < |s| {
      MatchBlockSpec(s, i);
      assert MatchBlock(s, i).None?;
      ScanBlocksCopy(s, i);
      ScanWithoutBlocks(s, i + 1);
    }
  }

  /** Content in which no block opens comes back unchanged: content
      without a tag, tags never followed by a fence, and tag lines with
      text after the tag such as `` ```mermaid title `` or `` ```mermaidjs ``. */
  lemma {:induction false} UnclosedUnchanged(s: string)
    requires NoBlock(s)
    ensures ProcessMermaidBlocks(s) == s
  {
    ScanWithoutBlocks(s, 0);
    RenderWithoutBlocks(ScanBlocks(s, 0), MermaidDiv);
    ScanBlocksTiles(s, 0);
  }

  /** A tag line with a title after the tag opens no block. */
  lemma {:induction false} TitledTagUnchanged()
    ensures ProcessMermaidBlocks("```mermaid title\nA```") == "```mermaid title\nA```"
  {
    var s := "```mermaid title\nA```";
    forall p: nat | OccursAt(s, Tag, p) ensures p == 0 {
      assert s[p] == s[p..p + |Tag|][0] == '`';
      assert s[p + 3] == s[p..p + |Tag|][3] == 'm';
    }
    assert SpaceRunEnd(s, |Tag|) == |Tag| + 1 by {
      assert IsSpace(s[|Tag|]) && !IsSpace(s[|Tag| + 1]);
    }
    assert s[|Tag|..|Tag| + 1] == " ";
    UnclosedUnchanged(s);
  }

  /** A block written as the tag, a line break, a text and the next fence is
      recognised there and ends at that fence, and its payload strips to the
      same text: whitespace after the line break that the greedy `\s*` takes
      into the opener is whitespace `strip` would remove anyway. */
  lemma {:induction false} BlockAt(s: string, i: nat, f: nat)
    requires i + |Tag| < |s| && OccursAt(s, Tag, i) && s[i + |Tag|] == '\n'
    requires FindFrom(s, Fence, i + |Tag| + 1) == Some(f)
    ensures MatchBlock(s, i).Some? && MatchBlock(s, i).value.fence == f
    ensures Strip(MatchedBlock(s, i, MatchBlock(s, i).value).payload) == Strip(s[i + |Tag| + 1..f])
  {
    BlockEndsAtFence(s, i, f);
    var m := MatchBlock(s, i).value;
    OpenerEndSpec(s, i + |Tag|);
    StripAfterOpener(s, i + |Tag|, m.bodyStart, f);
  }

  lemma {:induction false} BlockEndsAtFence(s: string, i: nat, f: nat)
    requires i + |Tag| < |s| && OccursAt(s, Tag, i) && s[i + |Tag|] == '\n'
    requires FindFrom(s, Fence, i + |Tag| + 1) == Some(f)
    ensures MatchBlock(s, i).Some? && MatchBlock(s, i).value.fence == f
  {
    var a := i + |Tag|;
    assert IsSpace(s[a]);
    assert s[a..SpaceRunEnd(s, a)][0] == '\n';
    OpenerEndSpec(s, a);
    assert !OccursAt(s, Fence, a) by {
      if a + |Fence| <= |s| { assert s[a..a + |Fence|][0] == s[a]; }
    }
    FindFromSkip(s, Fence, a, a + 1);
    assert OccursAt(s, Fence, f);
    MatchBlockSpec(s, i);
  }

  /** The whitespace between a line break at `a` and index `p` does not
      change what `strip` makes of the text up to `f`. */
  lemma {:induction false} StripAfterOpener(s: string, a: nat, p: nat, f: nat)
    requires a < p <= f <= |s|
    requires forall j :: a <= j < p ==> IsSpace(s[j])
    ensures Strip(s[p..f]) == Strip(s[a + 1..f])
  {
    var ws := s[a + 1..p];
    assert s[a + 1..f] == ws + s[p..f];
    assert AllSpace(ws) by {
      forall x | 0 <= x < |ws| ensures IsSpace(ws[x]) { assert ws[x] == s[a + 1 + x]; }
    }
    StripAfterSpace(ws, s[p..f]);
  }

  /** A document that is one block, written the usual way, becomes exactly
      the div with the stripped diagram source. */
  lemma {:induction false} SingleBlock(body: string)
    requires CutAtFirst(body, Fence)
    ensures ProcessMermaidBlocks(Tag + "\n" + body + Fence) == MermaidDiv(body)
  {
    var s := Tag + "\n" + body + Fence;
    var a := |Tag| + 1;
    var f := a + |body|;
    FindAfterCut(Tag + "\n", body, Fence);
    assert s[..|Tag|] == Tag && s[|Tag|] == '\n';
    BlockAt(s, 0, f);
    assert s[a..f] == body;
    var m := MatchBlock(s, 0).value;
    ScanBlocksMatch(s, 0, m);
    assert ScanBlocks(s, |s|) == [];
    RenderCons(MatchedBlock(s, 0, m), [], MermaidDiv);
  }

  // ---------------------------------------------------------------------------
  // Output file names

  /** The page written for a Markdown file: `md_file.replace('.md', '.html')`,
      which rewrites every occurrence, not only the extension. */
  function HtmlFileName(mdFile: string): string {
    Replace(mdFile, ".md", ".html")
  }

  /** A name whose only `.md` is its extension gets the extension `.html`. */
  lemma {:induction false} HtmlFileNameSwapsExtension(base: string)
    requires CutAtFirst(base, ".md")
    ensures HtmlFileName(base + ".md") == base + ".html"
  {
    ReplaceAtEnd(base, ".md", ".html");
  }

  /** Every `.md` in a name is rewritten, not only the extension: the first
      one is replaced and the rest of the name is renamed in the same way. */
  lemma {:induction false} HtmlFileNameEveryOccurrence(front: string, back: string)
    requires CutAtFirst(front, ".md")
    ensures HtmlFileName(front + ".md" + back) == front + ".html" + HtmlFileName(back)
  {
    ReplaceFirst(front, ".md", ".html", back);
  }

  /** A name without `.md` is kept as it is. */
  lemma {:induction false} HtmlFileNameKeepsOthers(name: string)
    requires !OccursFrom(name, ".md", 0)
    ensures HtmlFileName(name) == name
  {
    ReplaceAbsent(name, ".md", ".html");
  }
}
