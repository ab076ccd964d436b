/** The card fragments of `addon/card_html.py`: coloured labels for parts of
    speech and genders, the article of each gender, and two styling wrappers. */
module CardHtml {
  import opened Enums
  import opened Text

  // ---------------------------------------------------------------------------
  // Wrapping a text between a fixed opening and closing
  // ---------------------------------------------------------------------------

  /** The wrapped text sits right after the opening, and the closing right after it. */
  lemma WrapHasText(open: string, t: string, close: string)
    ensures StartsWith(open + t + close, open)
    ensures HasAt(open + t + close, |open|, t)
    ensures HasAt(open + t + close, |open| + |t|, close)
  {
    var w := open + t + close;
    assert w[0..|open|] == open;
    assert w[|open|..|open| + |t|] == t;
    assert w[|open| + |t|..|w|] == close;
  }

  /** Wrapping between the same opening and closing loses nothing. */
  lemma WrapInjective(open: string, t: string, u: string, close: string)
    requires open + t + close == open + u + close
    ensures t == u
  {
    var w := open + t + close;
    assert |t| == |u|;
    assert w[|open|..|open| + |t|] == t;
    assert (open + u + close)[|open|..|open| + |u|] == u;
  }

  // ---------------------------------------------------------------------------
  // Gender
  // ---------------------------------------------------------------------------

  /** `GENDER_TO_ARTICLE`: the definite article of each gender. */
  function GenderToArticle(g: Gender): (r: string)
    ensures r == "der" <==> g == MALE
    ensures r == "die" <==> g == FEMALE
    ensures r == "das" <==> g == NEUTRAL
  {
    match g
    case MALE => "der"
    case FEMALE => "die"
    case NEUTRAL => "das"
  }

  /** The colour of each gender's article on a card. */
  function GenderColor(g: Gender): string
  {
    match g
    case MALE => "#2a74ff"
    case FEMALE => "#fd6d85"
    case NEUTRAL => "#00aa00"
  }

  /** The opening of a bold article in the colour of `g`. */
  function ArticleOpen(g: Gender): string
  {
    "<span style=\"color: " + GenderColor(g) + "; font-weight: bold;\">"
  }

  /** What follows the article: the closing tag and a non-breaking space. */
  const ArticleClose: string := "</span>&nbsp;"

  /** `GENDER_TO_TEXT` (the `DER_TEXT`, `DIE_TEXT` and `DAS_TEXT` constants):
      the article in bold and in its gender's colour, followed by a
      non-breaking space; `GenderToText(MALE)` is
      `<span style="color: #2a74ff; font-weight: bold;">der</span>&nbsp;`. */
  function GenderToText(g: Gender): (r: string)
    ensures HasAt(r, |ArticleOpen(g)|, GenderToArticle(g))
    ensures Contains(r, GenderToArticle(g))
  {
    WrapHasText(ArticleOpen(g), GenderToArticle(g), ArticleClose);
    ArticleOpen(g) + GenderToArticle(g) + ArticleClose
  }

  /** Different genders get different card texts: the article sits at the same
      place in all three. */
  lemma GenderToTextInjective(g: Gender, h: Gender)
    requires GenderToText(g) == GenderToText(h)
    ensures g == h
  {
    assert |GenderColor(g)| == |GenderColor(h)| == 7;
    assert |ArticleOpen(g)| == |ArticleOpen(h)|;
    var i := |ArticleOpen(g)|;
    assert GenderToText(g)[i..i + 3] == GenderToArticle(g);
    assert GenderToText(h)[i..i + 3] == GenderToArticle(h);
  }

  // ---------------------------------------------------------------------------
  // Part of speech
  // ---------------------------------------------------------------------------

  /** The colour of each part-of-speech label. */
  function SpeachPartColor(p: SpeachPart): string
  {
    match p
    case NOUN => "#3d405b"
    case VERB => "#e07a5f"
    case ADJECTIVE => "#81b29a"
    case ADVERB => "#d68c45"
    case PRONOUN => "#98c1d9"
    case JUNKTION => "#333"
    case NUMBER => "#333"
    case PLURAL => "#333"
  }

  /** The opening of a label in the colour of `p`, up to the bold text. */
  function LabelOpen(p: SpeachPart): string
  {
    "<span style=\"color: " + SpeachPartColor(p) + ";\"><b>"
  }

  /** What follows the label text. */
  const LabelClose: string := "</b></span>"

  /** `SPEACH_PART_TO_TEXT`: defined for every part of speech; each label is
      the part's enum value in bold, in the part's colour;
      `SpeachPartToText(NOUN)` is `<span style="color: #3d405b;"><b>NOUN</b></span>`. */
  function SpeachPartToText(p: SpeachPart): (r: string)
    ensures HasAt(r, |LabelOpen(p)|, SpeachPartValue(p))
    ensures |r| == |LabelOpen(p)| + |SpeachPartValue(p)| + |LabelClose|
  {
    WrapHasText(LabelOpen(p), SpeachPartValue(p), LabelClose);
    LabelOpen(p) + SpeachPartValue(p) + LabelClose
  }

  /** Different parts of speech get different labels. */
  lemma SpeachPartToTextInjective(p: SpeachPart, q: SpeachPart)
    requires SpeachPartToText(p) == SpeachPartToText(q)
    ensures p == q
  {
    var r := SpeachPartToText(p);
    assert |LabelOpen(p)| == |SpeachPartColor(p)| + 26;
    assert |LabelOpen(q)| == |SpeachPartColor(q)| + 26;
    if |LabelOpen(p)| == |LabelOpen(q)| {
      var i := |LabelOpen(p)|;
      assert r[i] == SpeachPartValue(p)[0] && r[i] == SpeachPartValue(q)[0];
    }
  }

  // ---------------------------------------------------------------------------
  // Styling wrappers
  // ---------------------------------------------------------------------------

  const BoldOpen: string := "<span style=\"font-weight: bold;\">"
  const ItalicOpen: string := "<span style=\"font-style: italic;\">"
  const SpanClose: string := "</span>"

  /** `bold`: the bold opening tag, then the text, then the closing tag. */
  function Bold(t: string): (r: string)
    ensures StartsWith(r, BoldOpen) && HasAt(r, |BoldOpen|, t) && HasAt(r, |BoldOpen| + |t|, SpanClose)
    ensures |r| == |BoldOpen| + |t| + |SpanClose|
  {
    WrapHasText(BoldOpen, t, SpanClose);
    BoldOpen + t + SpanClose
  }

  /** `italic`: the italic opening tag, then the text, then the closing tag. */
  function Italic(t: string): (r: string)
    ensures StartsWith(r, ItalicOpen) && HasAt(r, |ItalicOpen|, t) && HasAt(r, |ItalicOpen| + |t|, SpanClose)
    ensures |r| == |ItalicOpen| + |t| + |SpanClose|
  {
    WrapHasText(ItalicOpen, t, SpanClose);
    ItalicOpen + t + SpanClose
  }

  /** Different texts give different bold spans. */
  lemma BoldInjective(t: string, u: string)
    requires Bold(t) == Bold(u)
    ensures t == u
  {
    WrapInjective(BoldOpen, t, u, SpanClose);
  }

  /** Different texts give different italic spans. */
  lemma ItalicInjective(t: string, u: string)
    requires Italic(t) == Italic(u)
    ensures t == u
  {
    WrapInjective(ItalicOpen, t, u, SpanClose);
  }
}
