/** The body of a post: an ordered sequence of typed content blocks and the
    rule that turns each block into one display unit.

    The post's `Content` record carries a kind tag that is either a paragraph
    or a link; here that closed union is a datatype, so a block of any other
    kind cannot be written down. Rendering keys every unit by its text, so two
    blocks with equal text share a key; that only concerns the reconciler's
    identity of units and leaves the rendered sequence itself unaffected. */
module ContentBlocks {

  /** One block of a post's body. */
  datatype Block = Paragraph(text: string) | Link(text: string)

  /** One display unit: a plain text paragraph, or a paragraph whose text is
      wrapped in a hyperlink (the link target is not part of the model). */
  datatype Unit = PlainText(text: string) | Anchor(text: string)

  /** The display unit of a single block. */
  function RenderBlock(b: Block): (u: Unit)
    ensures u.text == b.text
    ensures u.Anchor? <==> b.Link?
  {
    match b
    case Paragraph(t) => PlainText(t)
    case Link(t) => Anchor(t)
  }

  /** The body as displayed: one unit per block, in the blocks' order, each of
      the same kind and carrying the same text. */
  function Render(blocks: seq<Block>): (units: seq<Unit>)
    ensures |units| == |blocks|
    ensures forall i :: 0 <= i < |blocks| ==>
              units[i].text == blocks[i].text && (units[i].Anchor? <==> blocks[i].Link?)
  {
    if |blocks| == 0 then [] else [RenderBlock(blocks[0])] + Render(blocks[1..])
  }

  /** The block a display unit was rendered from. */
  function SourceBlock(u: Unit): (b: Block)
    ensures RenderBlock(b) == u
  {
    match u
    case PlainText(t) => Paragraph(t)
    case Anchor(t) => Link(t)
  }

  /** Reads a rendered body back into blocks. */
  function Unrender(units: seq<Unit>): (blocks: seq<Block>)
    ensures |blocks| == |units|
  {
    if |units| == 0 then [] else [SourceBlock(units[0])] + Unrender(units[1..])
  }

  /** Rendering loses nothing: the blocks can be read back from the units. */
  lemma {:induction false} UnrenderRender(blocks: seq<Block>)
    ensures Unrender(Render(blocks)) == blocks
  {
    if |blocks| > 0 {
      var rest := Render(blocks[1..]);
      assert Render(blocks) == [RenderBlock(blocks[0])] + rest;
      assert Render(blocks)[1..] == rest;
      UnrenderRender(blocks[1..]);
    }
  }

  /** Every sequence of units of the two kinds is the rendering of some body. */
  lemma {:induction false} RenderUnrender(units: seq<Unit>)
    ensures Render(Unrender(units)) == units
  {
    if |units| > 0 {
      var rest := Unrender(units[1..]);
      assert Unrender(units) == [SourceBlock(units[0])] + rest;
      assert Unrender(units)[1..] == rest;
      RenderUnrender(units[1..]);
    }
  }

  /** Rendering works block by block: the rendering of a body split in two is
      the two renderings one after the other. */
  lemma RenderAppend(a: seq<Block>, b: seq<Block>)
    ensures Render(a + b) == Render(a) + Render(b)
  {
  }

  /** A paragraph followed by a link renders as a plain unit followed by an
      anchor, with the texts unchanged. */
  lemma ParagraphThenLink()
    ensures Render([Paragraph("Hello"), Link("See more")]) == [PlainText("Hello"), Anchor("See more")]
  {
  }
}
