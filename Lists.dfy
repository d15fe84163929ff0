/** Deciding whether a paragraph is a list item, and of which kind (`detect_list_type`). */
module Lists {
  import opened Wrappers
  import opened Text
  import opened Runs

  /** The two list containers: `'ul'` and `'ol'`. */
  datatype ListType = Unordered | Ordered

  function Tag(t: ListType): string {
    if t == Unordered then "ul" else "ol"
  }

  /** A paragraph: its runs, its style name, and the indent level of its numbering
      properties when it has any (a missing level counts as 0). */
  datatype Paragraph = Paragraph(runs: seq<Run>, styleName: string, numLevel: Option<nat>)

  /** The texts of the runs, concatenated. */
  function RunTexts(runs: seq<Run>): string
    decreases |runs|
  {
    if runs == [] then [] else runs[0].text + RunTexts(runs[1..])
  }

  /** `para.text`. */
  function ParaText(p: Paragraph): string {
    RunTexts(p.runs)
  }

  /** The bullet glyphs: bullet, hyphen-minus, triangular bullet, white bullet,
      black small square. */
  predicate IsBulletGlyph(c: char) {
    c == '\U{2022}' || c == '-' || c == '\U{2023}' || c == '\U{25E6}' || c == '\U{25AA}'
  }

  /** The stripped paragraph text opens with a bullet glyph. */
  predicate OpensWithBullet(p: Paragraph) {
    var t := Trim(ParaText(p));
    t != [] && IsBulletGlyph(t[0])
  }

  /** The lower-cased style name contains `word`. */
  predicate StyleMentions(p: Paragraph, word: string) {
    Contains(Lower(p.styleName), word)
  }

  /** `detect_list_type`: `None` stands for `(False, None)`. */
  function Classify(p: Paragraph): (r: Option<ListType>)
    ensures OpensWithBullet(p) ==> r == Some(Unordered)
    ensures r == Some(Ordered) ==> !OpensWithBullet(p) && !StyleMentions(p, "bullet")
    ensures r.None? ==> !OpensWithBullet(p) && p.numLevel.None?
  {
    if OpensWithBullet(p) then Some(Unordered)
    else if StyleMentions(p, "bullet") then Some(Unordered)
    else if StyleMentions(p, "number") then Some(Ordered)
    else if p.numLevel.Some? then
      (if p.numLevel.value == 0 then Some(Ordered) else Some(Unordered))
    else None
  }

  /** The precedence of the heuristics, first match wins: glyph, then "bullet" in the
      style, then "number" in the style, then the numbering level. */
  lemma ClassifyPrecedence(p: Paragraph)
    ensures Classify(p) == Some(Unordered) <==>
      OpensWithBullet(p) || StyleMentions(p, "bullet")
      || (!StyleMentions(p, "number") && p.numLevel.Some? && p.numLevel.value > 0)
    ensures Classify(p) == Some(Ordered) <==>
      !OpensWithBullet(p) && !StyleMentions(p, "bullet")
      && (StyleMentions(p, "number") || p.numLevel == Some(0))
    ensures Classify(p).None? <==>
      !OpensWithBullet(p) && !StyleMentions(p, "bullet") && !StyleMentions(p, "number") && p.numLevel.None?
  {
  }

  /** The style test ignores case: lower-casing the style name changes nothing. */
  lemma ClassifyIgnoresStyleCase(p: Paragraph)
    ensures Classify(p.(styleName := Lower(p.styleName))) == Classify(p)
  {
    LowerIdempotent(p.styleName);
  }

  /** A style name mentioning "bullet" makes an unordered item whatever the
      numbering says. */
  lemma BulletStyleBeatsNumbering(p: Paragraph, level: Option<nat>)
    requires ContainsAt(Lower(p.styleName), "bullet")
    ensures Classify(p.(numLevel := level)) == Some(Unordered)
  {
    ContainsIff(Lower(p.styleName), "bullet");
  }

  /** `word` occurs somewhere in `s`. */
  ghost predicate ContainsAt(s: string, word: string) {
    exists i :: OccursAt(s, word, i)
  }
}
