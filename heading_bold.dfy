/** The second heading variant: the same level rule and the same struct, but levels One
    to Five are bold, and Six shows the text as it was given, marks included, in the
    base size and not bold. */
module HeadingBold {
  import Heading

  /** The element a heading renders to. */
  datatype BoldElement = BoldDiv(size: Heading.TextSize, bold: bool, child: string)

  /** `Heading::render` of this variant. */
  function Render(h: Heading.Heading): (e: BoldElement)
    ensures h.level != Heading.Six ==> e.bold && e.child == Heading.StrippedText(h.text)
    ensures h.level == Heading.Six ==> !e.bold && e.size == Heading.TextBase && e.child == h.text
  {
    var text := Heading.StrippedText(h.text);
    match h.level
    case One => BoldDiv(Heading.Text3xl, true, text)
    case Two => BoldDiv(Heading.Text2xl, true, text)
    case Three => BoldDiv(Heading.TextXl, true, text)
    case Four => BoldDiv(Heading.TextLg, true, text)
    case Five => BoldDiv(Heading.TextBase, true, text)
    case _ => BoldDiv(Heading.TextBase, false, h.text)
  }

  /** Levels One to Five have the sizes and text of the other variant; at level Six
      the two show the same text exactly when stripping removes nothing. */
  lemma {:induction false} RenderAgrees(h: Heading.Heading)
    ensures h.level != Heading.Six ==> Render(h).size == Heading.Render(h).size && Render(h).child == Heading.Render(h).child
    ensures h.level == Heading.Six ==> (Render(h).child == Heading.Render(h).child <==> Heading.StrippedText(h.text) == h.text)
  {
  }

  /** A level Six heading made from text shows its marks: with six marks or more in
      front, the text shown starts with them. */
  lemma {:induction false} SixShowsMarks(text: string)
    requires Heading.LeadingHashes(text) >= 6
    ensures Render(Heading.New(text)).child[..6] == "######"
    ensures !Render(Heading.New(text)).bold
  {
    Heading.FromU8Level(text);
  }
}
