/** The two diagram rewriters side by side: every block the PDF path turns
    into a placeholder box is also a block the HTML path turns into a
    diagram div, cut at the same fence and with the same stripped source. */
module Agreement {
  import opened Text
  import PdfPreprocess
  import DocGen

  /** The middle of a slice cut into three parts. */
  lemma {:induction false} MiddleSlice(s: string, i: nat, e: nat, x: string, y: string, z: string)
    requires i <= e <= |s| && s[i..e] == x + y + z
    ensures s[i + |x|..e - |z|] == y
  {
    var w := s[i + |x|..e - |z|];
    assert |w| == |y|;
    forall k | 0 <= k < |y| ensures w[k] == y[k] {
      assert w[k] == s[i..e][|x| + k];
    }
  }

  /** The PDF pattern `r'```mermaid\n(.*?)```'` is the HTML pattern
      `r'```mermaid\s*\n([\s\S]*?)```'` with no whitespace before the line
      break, so a PDF match is an HTML match with the same extent; the HTML
      group may have lost leading whitespace to `\s*`, which `strip` drops
      anyway. */
  lemma {:induction false} DiagramBlocksAgree(s: string, i: nat)
    requires i <= |s| && PdfPreprocess.MatchDiagram(s, i).Some?
    ensures DocGen.MatchBlock(s, i).Some?
    ensures DocGen.MatchBlock(s, i).value.fence + |Fence| == PdfPreprocess.MatchDiagram(s, i).value.end
    ensures Strip(DocGen.MatchedBlock(s, i, DocGen.MatchBlock(s, i).value).payload)
         == Strip(PdfPreprocess.MatchDiagram(s, i).value.payload)
  {
    var d := PdfPreprocess.MatchDiagram(s, i).value;
    assert PdfPreprocess.Opener == DocGen.Tag + "\n";
    OccursAtSplit(s, DocGen.Tag, "\n", i);
    assert s[i + |DocGen.Tag|] == s[i + |DocGen.Tag|..i + |DocGen.Tag| + 1][0];
    DocGen.BlockAt(s, i, d.end - |Fence|);
    MiddleSlice(s, i, d.end, PdfPreprocess.Opener, d.payload, Fence);
  }

  /** The converse fails: whitespace between the tag and the line break,
      such as a trailing blank, is accepted by the HTML pattern only, so the
      PDF leaves such a block as a code block while the HTML page draws it. */
  lemma {:induction false} BlankAfterTagOnlyHtml()
    ensures var s := "```mermaid \nA```";
            PdfPreprocess.MatchDiagram(s, 0).None? && DocGen.MatchBlock(s, 0).Some?
  {
    var s := "```mermaid \nA```";
    assert s[10] != PdfPreprocess.Opener[10];
    assert !OccursAt(s, PdfPreprocess.Opener, 0);
    DocGen.MatchBlockSpec(s, 0);
    assert SpaceRunEnd(s, 10) == 12 by {
      assert IsSpace(s[10]) && IsSpace(s[11]) && !IsSpace(s[12]);
      assert SpaceRunEnd(s, 12) == 12;
    }
    assert s[10..12][1] == '\n';
    assert OccursAt(s, Fence, 13);
  }
}
