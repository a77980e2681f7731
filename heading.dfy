/** A loose ATX heading (after section 4.2 of CommonMark, without its required space
    and with seven or more marks counted as six): the level is the number of leading
    `#` clamped into 1..6, and the text shown is the input without those marks and the
    white space after them. */
module Heading {

  datatype HeadingLevel = One | Two | Three | Four | Five | Six

  /** The level as a number from 1 to 6. */
  function Rank(level: HeadingLevel): (n: nat)
    ensures 1 <= n <= 6
  {
    match level
    case One => 1
    case Two => 2
    case Three => 3
    case Four => 4
    case Five => 5
    case Six => 6
  }

  /** `text.chars().take_while(|&c| c == '#').count()`. */
  function LeadingHashes(text: string): (n: nat)
    ensures n <= |text|
    ensures forall i :: 0 <= i < n ==> text[i] == '#'
    ensures n < |text| ==> text[n] != '#'
  {
    if text != [] && text[0] == '#' then 1 + LeadingHashes(text[1..]) else 0
  }

  /** `HeadingLevel::from_u8`: the count clamped into 1..6, then matched. */
  function FromU8(text: string): HeadingLevel {
    var count := LeadingHashes(text);
    var level := if count < 1 then 1 else count;
    var level := if level > 6 then 6 else level;
    match level
    case 1 => One
    case 2 => Two
    case 3 => Three
    case 4 => Four
    case 5 => Five
    case _ => Six
  }

  /** The level is min(6, max(1, number of leading `#`)): no mark gives One, six or
      more give Six. */
  lemma {:induction false} FromU8Level(text: string)
    ensures var count := LeadingHashes(text);
      Rank(FromU8(text)) == if count <= 1 then 1 else if count >= 6 then 6 else count
    ensures LeadingHashes(text) == 0 ==> FromU8(text) == One
    ensures LeadingHashes(text) >= 6 ==> FromU8(text) == Six
  {
  }

  /** More leading marks never give a lower level. */
  lemma {:induction false} FromU8Monotone(a: string, b: string)
    requires LeadingHashes(a) <= LeadingHashes(b)
    ensures Rank(FromU8(a)) <= Rank(FromU8(b))
  {
    FromU8Level(a);
    FromU8Level(b);
  }

  /** A heading: its level and the text it was made from. */
  datatype Heading = Heading(level: HeadingLevel, text: string)

  /** `Heading::new`: the text is kept as it is and the level is read from it. */
  function New(text: string): (h: Heading)
    ensures h.text == text
    ensures Rank(h.level) == Rank(FromU8(text))
  {
    Heading(FromU8(text), text)
  }

  /** `char::is_whitespace`: the Unicode White_Space property. */
  predicate IsWhiteSpace(c: char) {
    ('\U{0009}' <= c <= '\U{000D}') || c == '\U{0020}' || c == '\U{0085}' || c == '\U{00A0}'
    || c == '\U{1680}' || ('\U{2000}' <= c <= '\U{200A}') || c == '\U{2028}' || c == '\U{2029}'
    || c == '\U{202F}' || c == '\U{205F}' || c == '\U{3000}'
  }

  /** `str::trim_start`. */
  function TrimStart(s: string): (r: string)
    ensures |r| <= |s| && r == s[|s| - |r|..]
    ensures r == [] || !IsWhiteSpace(r[0])
    ensures s != [] && !IsWhiteSpace(s[0]) ==> r == s
  {
    if s != [] && IsWhiteSpace(s[0]) then TrimStart(s[1..]) else s
  }

  /** `text.trim_start_matches('#').trim_start()`. */
  function StrippedText(text: string): (r: string)
    ensures |r| <= |text| && r == text[|text| - |r|..]
    ensures r == [] || !IsWhiteSpace(r[0])
  {
    TrimStart(text[LeadingHashes(text)..])
  }

  /** The stripped text leaves out the marks and the white space after them and keeps
      everything from the first other character on. */
  lemma {:induction false} StrippedTextFrom(text: string, k: nat)
    requires LeadingHashes(text) <= k <= |text|
    requires forall i :: LeadingHashes(text) <= i < k ==> IsWhiteSpace(text[i])
    requires k < |text| ==> !IsWhiteSpace(text[k])
    ensures StrippedText(text) == text[k..]
  {
    TrimStartFrom(text, LeadingHashes(text), k);
  }

  /** Past position `n`, `trim_start` drops exactly the white space up to `k`. */
  lemma {:induction false} TrimStartFrom(text: string, n: nat, k: nat)
    requires n <= k <= |text|
    requires forall i :: n <= i < k ==> IsWhiteSpace(text[i])
    requires k < |text| ==> !IsWhiteSpace(text[k])
    ensures TrimStart(text[n..]) == text[k..]
  {
    var s := text[n..];
    assert forall i :: 0 <= i < k - n ==> IsWhiteSpace(s[i]) by {
      forall i | 0 <= i < k - n
        ensures IsWhiteSpace(s[i])
      {
        assert s[i] == text[n + i];
      }
    }
    assert k - n < |s| ==> !IsWhiteSpace(s[k - n]) by {
      if k - n < |s| {
        assert s[k - n] == text[k];
      }
    }
    TrimStartDrops(s, k - n);
    assert s[k - n..] == text[k..];
  }

  lemma {:induction false} TrimStartDrops(s: string, k: nat)
    requires k <= |s|
    requires forall i :: 0 <= i < k ==> IsWhiteSpace(s[i])
    requires k < |s| ==> !IsWhiteSpace(s[k])
    ensures TrimStart(s) == s[k..]
    decreases k
  {
    if k > 0 {
      TrimStartDrops(s[1..], k - 1);
      assert s[1..][k - 1..] == s[k..];
    }
  }

  /** Only the first run of marks goes: `"# #x"` shows as `"#x"`. */
  lemma {:induction false} StrippedTextKeepsLaterHashes()
    ensures StrippedText("# #x") == "#x"
  {
    assert LeadingHashes("# #x") == 1 by {
      assert "# #x"[1..] == " #x";
    }
    StrippedTextFrom("# #x", 2);
  }

  /** The text sizes, largest first. */
  datatype TextSize = Text3xl | Text2xl | TextXl | TextLg | TextBase

  /** The size's place from largest (0) to smallest (4). */
  function SizeRank(s: TextSize): (n: nat)
    ensures n <= 4
  {
    match s
    case Text3xl => 0
    case Text2xl => 1
    case TextXl => 2
    case TextLg => 3
    case TextBase => 4
  }

  /** The element a heading renders to. */
  datatype Element = Div(size: TextSize, italic: bool, child: string)

  /** `Heading::render`. */
  function Render(h: Heading): (e: Element)
    ensures e.child == StrippedText(h.text)
    ensures e.italic <==> h.level == Six
  {
    var text := StrippedText(h.text);
    match h.level
    case One => Div(Text3xl, false, text)
    case Two => Div(Text2xl, false, text)
    case Three => Div(TextXl, false, text)
    case Four => Div(TextLg, false, text)
    case Five => Div(TextBase, false, text)
    case _ => Div(TextBase, true, text)
  }

  /** Each level from One to Five is one size smaller than the one before, and Six is
      Five's size in italics. */
  lemma {:induction false} RenderSizes(h: Heading)
    ensures Rank(h.level) <= 5 ==> SizeRank(Render(h).size) == Rank(h.level) - 1
    ensures h.level == Six ==> Render(h).size == TextBase && Render(h).italic
  {
  }

  /** A heading with more marks is never rendered larger. */
  lemma {:induction false} RenderMonotone(a: string, b: string)
    requires LeadingHashes(a) <= LeadingHashes(b)
    ensures SizeRank(Render(New(a)).size) <= SizeRank(Render(New(b)).size)
  {
    FromU8Monotone(a, b);
    RenderSizes(New(a));
    RenderSizes(New(b));
  }
}
