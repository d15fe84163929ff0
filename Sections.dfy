/** The section state machine of `docx_to_html_sections`: the walk over the
    paragraphs, the shared list buffer, and the assembled result. */
module Sections {
  import opened Wrappers
  import opened Text
  import opened Runs
  import opened Lists
  import opened Paragraphs
  import opened Faq

  /** The three regions returned to the caller. */
  datatype Regions = Regions(head: string, text: string, faq: seq<FaqPair>)

  /** The loop's variables: the section counter (0 head, 1 text, 2 FAQ), the three
      output lists, and the list buffer with its kind. */
  datatype SplitState = SplitState(
    section: nat,
    head: seq<string>,
    text: seq<string>,
    faq: seq<FaqItem>,
    buffer: seq<string>,
    bufType: Option<ListType>)

  const Start := SplitState(0, [], [], [], [], None)

  /** A marker paragraph: its stripped text is exactly `#####`. */
  predicate IsSentinel(p: Paragraph) {
    Trim(ParaText(p)) == "#####"
  }

  /** A paragraph skipped outright: blank text and no runs at all. */
  predicate IsSkipped(p: Paragraph) {
    Trim(ParaText(p)) == [] && p.runs == []
  }

  /** Some run with non-blank text is bold. */
  predicate AnyBold(runs: seq<Run>) {
    exists k :: 0 <= k < |runs| && !Blank(runs[k].text) && runs[k].bold
  }

  function FaqKind(p: Paragraph): Kind {
    if AnyBold(p.runs) then Question else Answer
  }

  /** Emits the buffered items as one wrapped list into the text output. */
  function Flush(st: SplitState): SplitState {
    if st.buffer == [] then st
    else st.(text := st.text + [WrapList(st.buffer, st.bufType)], buffer := [], bufType := None)
  }

  /** One iteration of the paragraph loop. */
  function Step(st: SplitState, p: Paragraph): (r: SplitState)
    ensures r.section == st.section + (if IsSentinel(p) then 1 else 0)
    ensures st.head <= r.head && st.text <= r.text && st.faq <= r.faq
    ensures st.section != 0 ==> r.head == st.head
    ensures st.section != 2 ==> r.faq == st.faq
  {
    if IsSkipped(p) then st
    else if IsSentinel(p) then
      (if st.section == 1 then Flush(st) else st).(section := st.section + 1)
    else
      var (html, kind) := ParaToHtml(p);
      if html == [] then st
      else if st.section <= 1 then
        if kind.Some? then
          var f := if st.bufType != kind then Flush(st) else st;
          f.(buffer := f.buffer + [html], bufType := kind)
        else
          var f := Flush(st);
          if st.section == 0 then f.(head := f.head + [html]) else f.(text := f.text + [html])
      else if st.section == 2 then st.(faq := st.faq + [FaqItem(FaqKind(p), html)])
      else st
  }

  predicate IsParaElement(h: string) { StartsWith(h, "<p>") }

  predicate IsListElement(h: string) { StartsWith(h, "<ul>") || StartsWith(h, "<ol>") }

  /** What holds of every state the loop reaches. */
  predicate Inv(st: SplitState) {
    // the buffer and its kind are empty together
    (st.buffer == [] <==> st.bufType.None?)
    // nothing is buffered once the FAQ section is reached
    && (st.section >= 2 ==> st.buffer == [])
    // the head holds only plain paragraphs; list items never reach it
    && (forall k :: 0 <= k < |st.head| ==> IsParaElement(st.head[k]))
    // the text holds plain paragraphs and wrapped lists, never a bare item
    && (forall k :: 0 <= k < |st.text| ==> IsParaElement(st.text[k]) || IsListElement(st.text[k]))
    && (forall k :: 0 <= k < |st.buffer| ==> StartsWith(st.buffer[k], "<li "))
    && (forall k :: 0 <= k < |st.faq| ==> st.faq[k].html != [])
  }

  /** The two shapes a rendered paragraph takes. */
  lemma ElementShapes(p: Paragraph)
    ensures ParaToHtml(p).0 != [] && ParaToHtml(p).1.Some? ==> StartsWith(ParaToHtml(p).0, "<li ")
    ensures ParaToHtml(p).0 != [] && ParaToHtml(p).1.None? ==> IsParaElement(ParaToHtml(p).0)
  {
    var r := ParaToHtml(p);
    var w, body := WrapperColor(p.runs), RenderRuns(p.runs);
    if r.0 != [] && r.1.Some? {
      StartsWithAppend("<li ", w);
      StartsWithExtend("<li " + w, ">", "<li ");
      StartsWithExtend("<li " + w + ">", body, "<li ");
      StartsWithExtend("<li " + w + ">" + body, "</li>", "<li ");
    } else if r.0 != [] {
      StartsWithAppend("<p>", body);
      StartsWithExtend("<p>" + body, "</p>", "<p>");
    }
  }

  /** A non-empty buffer with its kind wraps into a `<ul>` or `<ol>` element. */
  lemma WrapIsList(items: seq<string>, t: Option<ListType>)
    requires items != []
    ensures t.Some? ==> IsListElement(WrapList(items, t))
  {
    if t.None? {
    } else if t.value == Unordered { assert "<" + Tag(Unordered) + ">" == "<ul>"; }
    else { assert "<" + Tag(Ordered) + ">" == "<ol>"; }
  }

  /** Flushing keeps the invariant: the emitted element is one wrapped list. */
  lemma FlushInv(st: SplitState)
    requires Inv(st)
    ensures Inv(Flush(st)) && Flush(st).buffer == [] && Flush(st).section == st.section
    ensures Flush(st).head == st.head && Flush(st).faq == st.faq
  {
    if st.buffer != [] {
      var w := WrapList(st.buffer, st.bufType);
      WrapIsList(st.buffer, st.bufType);
      var t := st.text + [w];
      assert forall k :: 0 <= k < |t| ==> IsParaElement(t[k]) || IsListElement(t[k]) by {
        forall k | 0 <= k < |t| ensures IsParaElement(t[k]) || IsListElement(t[k]) {
          if k < |st.text| { assert t[k] == st.text[k]; }
        }
      }
    }
  }

  /** Appending an element with property `P` keeps `P` of every element. */
  lemma AppendKeeps(s: seq<string>, x: string, P: string -> bool)
    requires forall k :: 0 <= k < |s| ==> P(s[k])
    requires P(x)
    ensures forall k :: 0 <= k < |s + [x]| ==> P((s + [x])[k])
  {
    forall k | 0 <= k < |s + [x]| ensures P((s + [x])[k]) {
      if k < |s| { assert (s + [x])[k] == s[k]; }
    }
  }

  lemma SentinelInv(st: SplitState, p: Paragraph)
    requires Inv(st) && IsSentinel(p)
    ensures Inv(Step(st, p))
  {
    SentinelAddsNothing(st, p);
    FlushInv(st);
  }

  lemma ListItemInv(st: SplitState, p: Paragraph, t: ListType)
    requires Inv(st) && st.section <= 1 && IsListItem(p, t)
    ensures Inv(Step(st, p))
  {
    ListItemStep(st, p, t);
    ElementShapes(p);
    var g := if st.bufType == Some(t) then st else Flush(st);
    FlushInv(st);
    assert Step(st, p) == g.(buffer := g.buffer + [ParaToHtml(p).0], bufType := Some(t));
    AppendKeeps(g.buffer, ParaToHtml(p).0, h => StartsWith(h, "<li "));
  }

  lemma PlainInv(st: SplitState, p: Paragraph)
    requires Inv(st) && st.section <= 1 && IsPlain(p)
    ensures Inv(Step(st, p))
  {
    PlainStep(st, p);
    ElementShapes(p);
    FlushInv(st);
    var f := Flush(st);
    var h := ParaToHtml(p).0;
    if st.section == 0 {
      assert Step(st, p) == f.(head := f.head + [h]);
      AppendKeeps(f.head, h, IsParaElement);
    } else {
      assert Step(st, p) == f.(text := f.text + [h]);
      AppendKeeps(f.text, h, x => IsParaElement(x) || IsListElement(x));
    }
  }

  lemma FaqInv(st: SplitState, p: Paragraph)
    requires Inv(st) && st.section == 2 && !IsSkipped(p) && !IsSentinel(p) && ParaToHtml(p).0 != []
    ensures Inv(Step(st, p))
  {
    FaqStep(st, p);
    var q := st.faq + [FaqItem(FaqKind(p), ParaToHtml(p).0)];
    assert forall k :: 0 <= k < |q| ==> q[k].html != [] by {
      forall k | 0 <= k < |q| ensures q[k].html != [] {
        if k < |st.faq| { assert q[k] == st.faq[k]; }
      }
    }
  }

  /** Every iteration keeps the invariant. */
  lemma StepInv(st: SplitState, p: Paragraph)
    requires Inv(st)
    ensures Inv(Step(st, p))
  {
    var r := ParaToHtml(p);
    if IsSkipped(p) {
    } else if IsSentinel(p) {
      SentinelInv(st, p);
    } else if r.0 == [] {
    } else if st.section <= 1 && r.1.Some? {
      ListItemInv(st, p, r.1.value);
    } else if st.section <= 1 {
      PlainInv(st, p);
    } else if st.section == 2 {
      FaqInv(st, p);
    }
  }


  /** The loop over a paragraph sequence, from a given state. */
  function Walk(st: SplitState, doc: seq<Paragraph>): SplitState
    decreases |doc|
  {
    if doc == [] then st else Walk(Step(st, doc[0]), doc[1..])
  }

  function CountSentinels(doc: seq<Paragraph>): nat
    decreases |doc|
  {
    if doc == [] then 0 else (if IsSentinel(doc[0]) then 1 else 0) + CountSentinels(doc[1..])
  }

  /** The section counter advances by exactly one per marker paragraph. */
  lemma {:induction false} WalkSection(st: SplitState, doc: seq<Paragraph>)
    ensures Walk(st, doc).section == st.section + CountSentinels(doc)
    decreases |doc|
  {
    if doc != [] {
      WalkSection(Step(st, doc[0]), doc[1..]);
    }
  }

  /** The outputs only ever grow, and the head is final once the text section starts. */
  lemma {:induction false} WalkGrows(st: SplitState, doc: seq<Paragraph>)
    ensures st.head <= Walk(st, doc).head && st.text <= Walk(st, doc).text && st.faq <= Walk(st, doc).faq
    ensures st.section != 0 ==> Walk(st, doc).head == st.head
    decreases |doc|
  {
    if doc != [] {
      WalkGrows(Step(st, doc[0]), doc[1..]);
    }
  }

  lemma {:induction false} WalkInv(st: SplitState, doc: seq<Paragraph>)
    requires Inv(st)
    ensures Inv(Walk(st, doc))
    decreases |doc|
  {
    if doc != [] {
      StepInv(st, doc[0]);
      WalkInv(Step(st, doc[0]), doc[1..]);
    }
  }

  lemma {:induction false} WalkAppend(st: SplitState, a: seq<Paragraph>, b: seq<Paragraph>)
    ensures Walk(st, a + b) == Walk(Walk(st, a), b)
    decreases |a|
  {
    if a == [] {
      assert a + b == b;
    } else {
      var next := Step(st, a[0]);
      assert (a + b)[0] == a[0];
      assert (a + b)[1..] == a[1..] + b;
      calc {
        Walk(st, a + b);
        Walk(next, a[1..] + b);
        { WalkAppend(next, a[1..], b); }
        Walk(Walk(next, a[1..]), b);
      }
    }
  }

  /** Once past the FAQ section, a paragraph changes nothing but the counter. */
  lemma StepDropped(st: SplitState, p: Paragraph)
    requires st.section >= 3
    ensures Step(st, p) == st.(section := st.section + (if IsSentinel(p) then 1 else 0))
  {
  }

  lemma {:induction false} WalkDropped(st: SplitState, doc: seq<Paragraph>)
    requires st.section >= 3
    ensures Walk(st, doc) == st.(section := st.section + CountSentinels(doc))
    decreases |doc|
  {
    if doc != [] {
      StepDropped(st, doc[0]);
      WalkDropped(Step(st, doc[0]), doc[1..]);
    }
  }

  /** The text output after the end-of-stream flush, which happens only in the
      text section. */
  function EndText(st: SplitState): (r: seq<string>)
    ensures st.buffer != [] && st.section == 1 ==> r == st.text + [WrapList(st.buffer, st.bufType)]
    ensures !(st.buffer != [] && st.section == 1) ==> r == st.text
    ensures Inv(st) && |r| > |st.text| ==> IsListElement(r[|st.text|])
  {
    if st.buffer != [] && st.section == 1 then
      WrapIsList(st.buffer, st.bufType);
      st.text + [WrapList(st.buffer, st.bufType)]
    else st.text
  }

  /** The result: each region joined and stripped, the FAQ items paired. */
  function Finish(st: SplitState): Regions {
    Regions(Trim(Concat(st.head)), Trim(Concat(EndText(st))), PairFaq(st.faq))
  }

  /** `docx_to_html_sections` over an already parsed paragraph sequence. */
  function Convert(doc: seq<Paragraph>): Regions {
    Finish(Walk(Start, doc))
  }

  /** Paragraphs after the third marker never reach the result. */
  lemma ConvertIgnoresAfterThird(pre: seq<Paragraph>, post: seq<Paragraph>)
    requires CountSentinels(pre) >= 3
    ensures Convert(pre + post) == Convert(pre)
  {
    var mid := Walk(Start, pre);
    WalkAppend(Start, pre, post);
    WalkSection(Start, pre);
    WalkDropped(mid, post);
  }

  /** The FAQ of the result is the reference pairing of the tagged FAQ items, one
      pair per question. */
  lemma ConvertFaqIsRef(doc: seq<Paragraph>)
    ensures Convert(doc).faq == PairRef(Walk(Start, doc).faq)
    ensures PairQuestions(Convert(doc).faq) == QuestionsOf(Walk(Start, doc).faq)
  {
    WalkInv(Start, doc);
    var items := Walk(Start, doc).faq;
    PairFaqIsRef(items);
    OnePairPerQuestion(items);
  }

  /** List items never reach the head output, and the text output holds only
      paragraphs and wrapped lists. */
  lemma OutputShapes(doc: seq<Paragraph>)
    ensures forall k :: 0 <= k < |Walk(Start, doc).head| ==> IsParaElement(Walk(Start, doc).head[k])
    ensures forall k :: 0 <= k < |Walk(Start, doc).text| ==>
      IsParaElement(Walk(Start, doc).text[k]) || IsListElement(Walk(Start, doc).text[k])
  {
    WalkInv(Start, doc);
  }

  /** A paragraph with blank text and no runs leaves the state as it is. */
  lemma SkippedAddsNothing(st: SplitState, p: Paragraph)
    requires IsSkipped(p)
    ensures Step(st, p) == st
  {
  }

  /** A paragraph whose runs all have blank text and no truthy link renders as `''`
      and leaves the state as it is, in every section: a list pending across it
      stays open. */
  lemma SilentAddsNothing(st: SplitState, p: Paragraph)
    requires SilentRuns(p.runs)
    ensures Step(st, p) == st
  {
    SilentTextBlank(p.runs);
    assert Trim(ParaText(p)) == [];
  }

  /** A marker paragraph contributes no output of its own: it only closes a list
      pending in the text section, exactly as the end of the stream would. */
  lemma SentinelAddsNothing(st: SplitState, p: Paragraph)
    requires IsSentinel(p)
    ensures Step(st, p).head == st.head && Step(st, p).faq == st.faq
    ensures Step(st, p).text == EndText(st)
    ensures st.section != 1 ==> Step(st, p).buffer == st.buffer
    ensures st.section != 1 ==> Step(st, p) == st.(section := st.section + 1)
    ensures st.section == 1 ==> Step(st, p) == Flush(st).(section := 2)
  {
    assert !IsSkipped(p) by {
      assert |Trim(ParaText(p))| == 5;
    }
  }

  /** A paragraph that renders as a list item of kind `t`. */
  predicate IsListItem(p: Paragraph, t: ListType) {
    !IsSkipped(p) && !IsSentinel(p) && ParaToHtml(p).0 != [] && ParaToHtml(p).1 == Some(t)
  }

  /** A paragraph that renders as a plain `<p>` element. */
  predicate IsPlain(p: Paragraph) {
    !IsSkipped(p) && !IsSentinel(p) && ParaToHtml(p).0 != [] && ParaToHtml(p).1.None?
  }

  /** The rendered markup of each paragraph, in order. */
  function Htmls(doc: seq<Paragraph>): (r: seq<string>)
    ensures |r| == |doc|
    decreases |doc|
  {
    if doc == [] then [] else [ParaToHtml(doc[0]).0] + Htmls(doc[1..])
  }

  /** A list item joins the buffer; when the buffer holds the other kind, that list
      is first emitted as one wrapper into the text output, even from the head. */
  lemma ListItemStep(st: SplitState, p: Paragraph, t: ListType)
    requires Inv(st) && st.section <= 1 && IsListItem(p, t)
    ensures Step(st, p).head == st.head && Step(st, p).faq == st.faq && Step(st, p).section == st.section
    ensures Step(st, p).bufType == Some(t)
    ensures st.bufType == Some(t) ==>
      Step(st, p).text == st.text && Step(st, p).buffer == st.buffer + [ParaToHtml(p).0]
    ensures st.bufType != Some(t) ==>
      Step(st, p).text == EndText(st.(section := 1)) && Step(st, p).buffer == [ParaToHtml(p).0]
  {
  }

  /** A plain paragraph first emits any pending list into the text output, then goes
      to the output of the current section. */
  lemma PlainStep(st: SplitState, p: Paragraph)
    requires Inv(st) && st.section <= 1 && IsPlain(p)
    ensures Step(st, p).buffer == [] && Step(st, p).bufType.None? && Step(st, p).faq == st.faq
    ensures st.section == 0 ==>
      Step(st, p).head == st.head + [ParaToHtml(p).0] && Step(st, p).text == EndText(st.(section := 1))
    ensures st.section == 1 ==>
      Step(st, p).head == st.head && Step(st, p).text == EndText(st) + [ParaToHtml(p).0]
  {
  }

  /** In the FAQ section a paragraph becomes one tagged item, a question exactly when
      some run with non-blank text is bold. */
  lemma FaqStep(st: SplitState, p: Paragraph)
    requires st.section == 2 && !IsSkipped(p) && !IsSentinel(p) && ParaToHtml(p).0 != []
    ensures Step(st, p).faq == st.faq + [FaqItem(FaqKind(p), ParaToHtml(p).0)]
    ensures Step(st, p).faq[|st.faq|].kind == Question <==>
      exists k :: 0 <= k < |p.runs| && !Blank(p.runs[k].text) && p.runs[k].bold
    ensures Step(st, p).head == st.head && Step(st, p).text == st.text
  {
  }

  lemma ListItemJoins(st: SplitState, p: Paragraph, t: ListType)
    requires Inv(st) && st.section <= 1 && (st.buffer == [] || st.bufType == Some(t)) && IsListItem(p, t)
    ensures Step(st, p) == st.(buffer := st.buffer + [ParaToHtml(p).0], bufType := Some(t))
    ensures Inv(Step(st, p))
  {
    ListItemStep(st, p, t);
    StepInv(st, p);
  }

  lemma AllListItemsTail(items: seq<Paragraph>, t: ListType)
    requires items != [] && forall k :: 0 <= k < |items| ==> IsListItem(items[k], t)
    ensures IsListItem(items[0], t)
    ensures forall k :: 0 <= k < |items[1..]| ==> IsListItem(items[1..][k], t)
  {
    assert forall k :: 0 <= k < |items[1..]| ==> items[1..][k] == items[k + 1];
  }

  lemma BufferGrows(st: SplitState, next: SplitState, last: SplitState, h: string, hs: seq<string>,
                    all: seq<string>, t: ListType)
    requires next == st.(buffer := st.buffer + [h], bufType := Some(t))
    requires last == next.(buffer := next.buffer + hs, bufType := Some(t))
    requires all == [h] + hs
    ensures last == st.(buffer := st.buffer + all, bufType := Some(t))
  {
    assert st.buffer + [h] + hs == st.buffer + all;
  }

  /** Consecutive list items of one kind accumulate in the buffer, in order, with
      nothing emitted. */
  lemma {:induction false} ListBlock(st: SplitState, items: seq<Paragraph>, t: ListType)
    requires Inv(st) && st.section <= 1 && (st.buffer == [] || st.bufType == Some(t))
    requires forall k :: 0 <= k < |items| ==> IsListItem(items[k], t)
    ensures items != [] ==>
      Walk(st, items) == st.(buffer := st.buffer + Htmls(items), bufType := Some(t))
    decreases |items|
  {
    if items != [] {
      var h := ParaToHtml(items[0]).0;
      var rest := items[1..];
      AllListItemsTail(items, t);
      ListItemJoins(st, items[0], t);
      var next := st.(buffer := st.buffer + [h], bufType := Some(t));
      assert Walk(st, items) == Walk(next, rest);
      assert Htmls(items) == [h] + Htmls(rest);
      if rest != [] {
        ListBlock(next, rest, t);
        BufferGrows(st, next, Walk(next, rest), h, Htmls(rest), Htmls(items), t);
      }
    }
  }


  /** A block of list items of another kind than the pending list emits that list as
      one wrapper into the text output and starts a new buffer with the block. */
  lemma SwitchKind(st: SplitState, ys: seq<Paragraph>, t: ListType)
    requires Inv(st) && st.section <= 1 && st.buffer != [] && st.bufType != Some(t)
    requires ys != [] && forall k :: 0 <= k < |ys| ==> IsListItem(ys[k], t)
    ensures Walk(st, ys) == st.(text := st.text + [WrapList(st.buffer, st.bufType)],
                                buffer := Htmls(ys), bufType := Some(t))
  {
    AllListItemsTail(ys, t);
    ListItemStep(st, ys[0], t);
    StepInv(st, ys[0]);
    var next := Step(st, ys[0]);
    assert next == st.(text := st.text + [WrapList(st.buffer, st.bufType)],
                       buffer := [ParaToHtml(ys[0]).0], bufType := Some(t));
    assert Walk(st, ys) == Walk(next, ys[1..]);
    if ys[1..] != [] {
      ListBlock(next, ys[1..], t);
    }
  }

  lemma WrapKinds(items: seq<string>)
    requires items != []
    ensures WrapList(items, Some(Unordered)) == "<ul>" + Concat(items) + "</ul>"
    ensures WrapList(items, Some(Ordered)) == "<ol>" + Concat(items) + "</ol>"
  {
    assert "<" + Tag(Unordered) + ">" == "<ul>" && "</" + Tag(Unordered) + ">" == "</ul>";
    assert "<" + Tag(Ordered) + ">" == "<ol>" && "</" + Tag(Ordered) + ">" == "</ol>";
  }

  lemma EndTwoLists(st: SplitState, fin: SplitState, a: seq<string>, b: seq<string>)
    requires st.section == 1 && a != [] && b != []
    requires fin == st.(text := st.text + [WrapList(a, Some(Unordered))], buffer := b, bufType := Some(Ordered))
    ensures EndText(fin) == st.text + ["<ul>" + Concat(a) + "</ul>", "<ol>" + Concat(b) + "</ol>"]
  {
    WrapKinds(a);
    WrapKinds(b);
  }

  /** A bulleted block followed by a numbered block, in the text section, becomes
      exactly one `<ul>` and one `<ol>` wrapper holding the items in order. */
  lemma TwoListsGrouped(st: SplitState, xs: seq<Paragraph>, ys: seq<Paragraph>)
    requires Inv(st) && st.section == 1 && st.buffer == []
    requires xs != [] && forall k :: 0 <= k < |xs| ==> IsListItem(xs[k], Unordered)
    requires ys != [] && forall k :: 0 <= k < |ys| ==> IsListItem(ys[k], Ordered)
    ensures EndText(Walk(st, xs + ys)) ==
      st.text + ["<ul>" + Concat(Htmls(xs)) + "</ul>", "<ol>" + Concat(Htmls(ys)) + "</ol>"]
  {
    WalkAppend(st, xs, ys);
    ListBlock(st, xs, Unordered);
    WalkInv(st, xs);
    var mid := Walk(st, xs);
    assert mid == st.(buffer := Htmls(xs), bufType := Some(Unordered));
    SwitchKind(mid, ys, Ordered);
    EndTwoLists(st, Walk(mid, ys), Htmls(xs), Htmls(ys));
  }

  /** A list still pending when the stream ends outside the text section is lost:
      a document that is a single list item converts to nothing at all. */
  lemma TrailingHeadListDropped(p: Paragraph, t: ListType)
    requires IsListItem(p, t)
    ensures Convert([p]) == Regions("", "", [])
  {
    ListItemJoins(Start, p, t);
    assert Walk(Start, [p]) == Walk(Step(Start, p), []);
    assert Walk(Start, [p]).text == [];
  }

  /** One pass of the paragraph loop's body over the loop's variables. */
  method Advance(st: SplitState, p: Paragraph) returns (next: SplitState)
    ensures next == Step(st, p)
  {
    var section, head, text, faqRaw, buffer, bufType :=
      st.section, st.head, st.text, st.faq, st.buffer, st.bufType;
    var rawText := Trim(ParaText(p));
    if rawText == [] && p.runs == [] {
    } else if rawText == "#####" {
      if buffer != [] && section == 1 {
        text := text + [WrapList(buffer, bufType)];
        buffer := [];
        bufType := None;
      }
      section := section + 1;
    } else {
      var (html, kind) := ParaToHtml(p);
      if html == [] {
      } else if section <= 1 {
        if kind.Some? {
          if bufType != kind && buffer != [] {
            text := text + [WrapList(buffer, bufType)];
            buffer := [];
          }
          bufType := kind;
          buffer := buffer + [html];
        } else {
          if buffer != [] {
            text := text + [WrapList(buffer, bufType)];
            buffer := [];
            bufType := None;
          }
          if section == 0 {
            head := head + [html];
          } else {
            text := text + [html];
          }
        }
      } else if section == 2 {
        faqRaw := faqRaw + [FaqItem(FaqKind(p), html)];
      }
    }
    next := SplitState(section, head, text, faqRaw, buffer, bufType);
  }

  /** The paragraph loop, one `Advance` per paragraph. */
  method WalkParagraphs(doc: seq<Paragraph>) returns (st: SplitState)
    ensures st == Walk(Start, doc)
  {
    st := Start;
    var i := 0;
    assert doc[i..] == doc;
    while i < |doc|
      invariant 0 <= i <= |doc|
      invariant Walk(st, doc[i..]) == Walk(Start, doc)
    {
      assert doc[i..][1..] == doc[i + 1..];
      st := Advance(st, doc[i]);
      i := i + 1;
    }
    assert doc[i..] == [];
  }

  /** The paragraph loop, the end-of-stream flush, the FAQ grouping and the stripped
      joins. */
  method ConvertSections(doc: seq<Paragraph>) returns (res: Regions)
    ensures res == Convert(doc)
    ensures res.faq == PairRef(Walk(Start, doc).faq)
    ensures forall k :: 0 <= k < |Walk(Start, doc).head| ==> IsParaElement(Walk(Start, doc).head[k])
  {
    var st := WalkParagraphs(doc);
    var text := st.text;
    if st.buffer != [] && st.section == 1 {
      text := text + [WrapList(st.buffer, st.bufType)];
    }
    var pairs := GroupFaqs(st.faq);
    res := Regions(Trim(Concat(st.head)), Trim(Concat(text)), pairs);
    ConvertFaqIsRef(doc);
    OutputShapes(doc);
  }
}
