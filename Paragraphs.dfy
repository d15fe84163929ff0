/** Rendering a paragraph (`para_to_html`) and wrapping buffered list items (`wrap_list`). */
module Paragraphs {
  import opened Wrappers
  import opened Text
  import opened Runs
  import opened Lists

  /** No run produces visible output: every run's text is blank and none is a
      resolved hyperlink. */
  predicate SilentRuns(runs: seq<Run>) {
    forall k :: 0 <= k < |runs| ==> Blank(runs[k].text) && !Truthy(runs[k].link)
  }

  /** Runs that are all silent have blank text altogether. */
  lemma {:induction false} SilentTextBlank(runs: seq<Run>)
    requires SilentRuns(runs)
    ensures Blank(RunTexts(runs))
    decreases |runs|
  {
    if runs != [] {
      SilentCons(runs);
      SilentTextBlank(runs[1..]);
      BlankAppend(runs[0].text, RunTexts(runs[1..]));
    }
  }

  lemma SilentCons(runs: seq<Run>)
    requires runs != []
    ensures SilentRuns(runs) <==> (Blank(runs[0].text) && !Truthy(runs[0].link)) && SilentRuns(runs[1..])
  {
    if SilentRuns(runs[1..]) && Blank(runs[0].text) && !Truthy(runs[0].link) {
      forall k | 0 <= k < |runs| ensures Blank(runs[k].text) && !Truthy(runs[k].link) {
        if k > 0 { assert runs[k] == runs[1..][k - 1]; }
      }
    }
    if SilentRuns(runs) {
      forall k | 0 <= k < |runs[1..]| ensures Blank(runs[1..][k].text) && !Truthy(runs[1..][k].link) {
        assert runs[1..][k] == runs[k + 1];
      }
    }
  }

  /** `''.join([run_to_html(run) for run in para.runs])`: blank exactly when every
      run is silent. */
  function RenderRuns(runs: seq<Run>): (r: string)
    ensures Blank(r) <==> SilentRuns(runs)
    decreases |runs|
  {
    if runs == [] then []
    else
      var head, tail := RenderRun(runs[0]), RenderRuns(runs[1..]);
      SilentCons(runs);
      BlankAppend(head, tail);
      head + tail
  }

  /** The colour attribute of a list item, taken from the first run only. */
  function WrapperColor(runs: seq<Run>): (r: string)
    ensures r != [] <==> runs != [] && Truthy(runs[0].rgb)
    ensures r != [] ==> r == "style=\"color:#" + runs[0].rgb.value + ";\""
  {
    if runs != [] && Truthy(runs[0].rgb) then "style=\"color:#" + runs[0].rgb.value + ";\"" else ""
  }

  /** `para_to_html`: the rendered element and its list kind, `("", None)` when the
      runs render to nothing visible. */
  function ParaToHtml(p: Paragraph): (r: (string, Option<ListType>))
    ensures r.0 == [] <==> SilentRuns(p.runs)
    ensures r.0 == [] ==> r.1.None?
    ensures r.0 != [] ==> r.1 == Classify(p)
    ensures r.1.Some? ==> r.0 == "<li " + WrapperColor(p.runs) + ">" + RenderRuns(p.runs) + "</li>"
    ensures r.0 != [] && r.1.None? ==> r.0 == "<p>" + RenderRuns(p.runs) + "</p>"
  {
    var html := RenderRuns(p.runs);
    if Blank(html) then ("", None)
    else
      var kind := Classify(p);
      if kind.Some? then ("<li " + WrapperColor(p.runs) + ">" + html + "</li>", kind)
      else ("<p>" + html + "</p>", None)
  }

  /** A paragraph with no runs, or only blank unlinked runs, contributes nothing. */
  lemma SilentParagraph(p: Paragraph)
    requires forall k :: 0 <= k < |p.runs| ==> Blank(p.runs[k].text) && p.runs[k].link.None?
    ensures ParaToHtml(p) == ("", None)
  {
  }

  /** `wrap_list`: the items unwrapped when there is no kind or no item, otherwise one
      `<ul>` or `<ol>` element whose content is the items in order. */
  function WrapList(items: seq<string>, t: Option<ListType>): (r: string)
    ensures t.None? || items == [] ==> r == Concat(items)
    ensures t.Some? && items != [] ==>
      |r| == |Concat(items)| + 9 && StartsWith(r, "<" + Tag(t.value) + ">") && EndsWith(r, "</" + Tag(t.value) + ">")
      && r[4..|r| - 5] == Concat(items)
  {
    if t.None? || items == [] then Concat(items)
    else
      var open, close := "<" + Tag(t.value) + ">", "</" + Tag(t.value) + ">";
      var r := open + Concat(items) + close;
      assert r[..|open|] == open;
      assert r[|r| - |close|..] == close;
      assert r[4..|r| - 5] == Concat(items);
      r
  }
}
