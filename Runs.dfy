/** Rendering of one styled text run to an HTML fragment (`run_to_html`). */
module Runs {
  import opened Wrappers
  import opened Text

  /** A run as the document model exposes it. `size` is the point size already
      formatted with two decimals, `None` when absent, zero (a zero length is
      falsy) or not formattable; `link` is the hyperlink target, `None` when the
      run has no hyperlink, the hyperlink has no relationship id, or the target
      is empty. */
  datatype Run = Run(
    text: string,
    bold: bool,
    italic: bool,
    size: Option<string>,
    font: Option<string>,
    rgb: Option<string>,
    link: Option<string>)

  // ---------------------------------------------------------------- escaping

  /** `s.replace(c, rep)` for a one-character pattern. */
  function ReplaceChar(s: string, c: char, rep: string): string
    decreases |s|
  {
    if s == [] then [] else (if s[0] == c then rep else [s[0]]) + ReplaceChar(s[1..], c, rep)
  }

  lemma {:induction false} ReplaceAppend(a: string, b: string, c: char, rep: string)
    ensures ReplaceChar(a + b, c, rep) == ReplaceChar(a, c, rep) + ReplaceChar(b, c, rep)
    decreases |a|
  {
    if a != [] {
      assert (a + b)[1..] == a[1..] + b;
      ReplaceAppend(a[1..], b, c, rep);
    } else {
      assert a + b == b;
    }
  }

  lemma {:induction false} ReplaceAbsent(s: string, c: char, rep: string)
    requires c !in s
    ensures ReplaceChar(s, c, rep) == s
    decreases |s|
  {
    if s != [] {
      ReplaceAbsent(s[1..], c, rep);
      assert s == [s[0]] + s[1..];
    }
  }

  /** The entity each character stands for in escaped text. */
  function EscapeChar(c: char): string {
    if c == '&' then "&amp;" else if c == '<' then "&lt;" else if c == '>' then "&gt;" else [c]
  }

  /** Reference escaping: every character replaced by its entity in a single pass. */
  function EscapeEach(s: string): (r: string)
    ensures '<' !in r && '>' !in r
    ensures '\n' in r <==> '\n' in s
    decreases |s|
  {
    if s == [] then [] else EscapeChar(s[0]) + EscapeEach(s[1..])
  }

  lemma ReplaceSingle(c: char, d: char, rep: string)
    ensures ReplaceChar([c], d, rep) == (if c == d then rep else [c])
  {
    assert [c][1..] == [];
  }

  /** A character the three passes leave alone passes through each of them unchanged. */
  lemma PlainThrough(c: char)
    requires c != '&' && c != '<' && c != '>'
    ensures ReplaceChar(ReplaceChar(ReplaceChar([c], '&', "&amp;"), '<', "&lt;"), '>', "&gt;") == [c]
  {
    ReplaceSingle(c, '&', "&amp;");
    ReplaceSingle(c, '<', "&lt;");
    ReplaceSingle(c, '>', "&gt;");
  }

  /** An entity with no `<` or `>` in it survives the later passes. */
  lemma EntityThrough(e: string)
    requires '<' !in e && '>' !in e
    ensures ReplaceChar(ReplaceChar(e, '<', "&lt;"), '>', "&gt;") == e
  {
    ReplaceAbsent(e, '<', "&lt;");
    ReplaceAbsent(e, '>', "&gt;");
  }

  /** The three passes over one character produce its entity. */
  lemma ReplacementsOneChar(c: char)
    ensures ReplaceChar(ReplaceChar(ReplaceChar([c], '&', "&amp;"), '<', "&lt;"), '>', "&gt;") == EscapeChar(c)
  {
    if c == '&' {
      ReplaceSingle(c, '&', "&amp;");
      EntityThrough("&amp;");
    } else if c == '<' {
      ReplaceSingle(c, '&', "&amp;");
      ReplaceSingle(c, '<', "&lt;");
      ReplaceAbsent("&lt;", '>', "&gt;");
    } else if c == '>' {
      ReplaceSingle(c, '&', "&amp;");
      ReplaceSingle(c, '<', "&lt;");
      ReplaceSingle(c, '>', "&gt;");
    } else {
      PlainThrough(c);
    }
  }

  /** The three successive replacements, `&` first, agree with single-pass escaping:
      no entity produced by an earlier pass is escaped again by a later one. */
  lemma {:induction false} ReplacementsEscapeEach(s: string)
    ensures ReplaceChar(ReplaceChar(ReplaceChar(s, '&', "&amp;"), '<', "&lt;"), '>', "&gt;") == EscapeEach(s)
    decreases |s|
  {
    if s != [] {
      var c, t := s[0], s[1..];
      assert s == [c] + t;
      ReplaceAppend([c], t, '&', "&amp;");
      var a1, b1 := ReplaceChar([c], '&', "&amp;"), ReplaceChar(t, '&', "&amp;");
      ReplaceAppend(a1, b1, '<', "&lt;");
      var a2, b2 := ReplaceChar(a1, '<', "&lt;"), ReplaceChar(b1, '<', "&lt;");
      ReplaceAppend(a2, b2, '>', "&gt;");
      ReplacementsEscapeEach(t);
      ReplacementsOneChar(c);
    }
  }

  /** `text.replace('&', '&amp;').replace('<', '&lt;').replace('>', '&gt;')`. */
  function Escape(s: string): (r: string)
    ensures r == EscapeEach(s)
    ensures '<' !in r && '>' !in r
    ensures '\n' in r <==> '\n' in s
  {
    ReplacementsEscapeEach(s);
    ReplaceChar(ReplaceChar(ReplaceChar(s, '&', "&amp;"), '<', "&lt;"), '>', "&gt;")
  }

  /** Decoding of the three entities `Escape` produces. */
  function Unescape(s: string): string
    decreases |s|
  {
    if s == [] then []
    else if StartsWith(s, "&amp;") then "&" + Unescape(s[5..])
    else if StartsWith(s, "&lt;") then "<" + Unescape(s[4..])
    else if StartsWith(s, "&gt;") then ">" + Unescape(s[4..])
    else [s[0]] + Unescape(s[1..])
  }

  lemma UnescapeCons(c: char, rest: string)
    ensures Unescape(EscapeChar(c) + rest) == [c] + Unescape(rest)
  {
    var s := EscapeChar(c) + rest;
    if c == '&' {
      assert s[..5] == "&amp;";
      assert s[5..] == rest;
      assert Unescape(s) == "&" + Unescape(s[5..]);
    } else if c == '<' {
      assert s[..4] == "&lt;";
      assert s[4..] == rest;
      assert !StartsWith(s, "&amp;") by { assert s[1] != "&amp;"[1]; }
      assert Unescape(s) == "<" + Unescape(s[4..]);
    } else if c == '>' {
      assert s[..4] == "&gt;";
      assert s[4..] == rest;
      assert !StartsWith(s, "&amp;") by { assert s[1] != "&amp;"[1]; }
      assert !StartsWith(s, "&lt;") by { assert s[1] != "&lt;"[1]; }
      assert Unescape(s) == ">" + Unescape(s[4..]);
    } else {
      assert s[0] == c;
      assert s[1..] == rest;
      assert !StartsWith(s, "&amp;") && !StartsWith(s, "&lt;") && !StartsWith(s, "&gt;") by {
        assert s[0] != '&';
      }
      assert Unescape(s) == [c] + Unescape(s[1..]);
    }
  }

  /** Escaping loses nothing: unescaping gives back the run's text. */
  lemma {:induction false} UnescapeEscape(s: string)
    ensures Unescape(Escape(s)) == s
    decreases |s|
  {
    if s != [] {
      UnescapeEscape(s[1..]);
      UnescapeCons(s[0], EscapeEach(s[1..]));
      assert s == [s[0]] + s[1..];
    }
  }

  // ------------------------------------------------------------ line breaks

  /** `[line.strip() for line in lines if line.strip()]`. */
  function KeptLines(lines: seq<string>): (r: seq<string>)
    ensures |r| <= |lines|
    ensures forall k :: 0 <= k < |r| ==> r[k] != [] && !IsSpace(r[k][0]) && !IsSpace(r[k][|r[k]| - 1])
    decreases |lines|
  {
    if lines == [] then []
    else if Trim(lines[0]) == [] then KeptLines(lines[1..])
    else [Trim(lines[0])] + KeptLines(lines[1..])
  }

  /** A single line is kept, stripped, exactly when it is not blank. */
  lemma KeptLinesSingle(l: string)
    ensures KeptLines([l]) == (if Blank(l) then [] else [Trim(l)])
  {
    assert [l][1..] == [];
  }

  /** Filtering distributes over concatenation: with `KeptLinesSingle`, the kept
      lines are exactly the stripped non-blank lines, all of them, in order. */
  lemma {:induction false} KeptLinesAppend(a: seq<string>, b: seq<string>)
    ensures KeptLines(a + b) == KeptLines(a) + KeptLines(b)
    decreases |a|
  {
    if a == [] {
      assert a + b == b;
    } else {
      assert (a + b)[0] == a[0];
      assert (a + b)[1..] == a[1..] + b;
      KeptLinesAppend(a[1..], b);
      if Trim(a[0]) != [] {
        var h := [Trim(a[0])];
        assert h + KeptLines(a[1..]) + KeptLines(b) == h + (KeptLines(a[1..]) + KeptLines(b));
      }
    }
  }

  /** Kept lines carry no character that no input line carries. */
  lemma {:induction false} KeptLinesExclude(lines: seq<string>, c: char)
    requires forall k :: 0 <= k < |lines| ==> c !in lines[k]
    ensures forall k :: 0 <= k < |KeptLines(lines)| ==> c !in KeptLines(lines)[k]
    decreases |lines|
  {
    if lines != [] {
      KeptLinesExclude(lines[1..], c);
      if c in Trim(lines[0]) { TrimChars(lines[0], c); }
    }
  }

  /** Multi-line text becomes its trimmed non-blank lines joined by `<br>`;
      single-line text is left as it is. No line feed survives either way. */
  function BreakLines(t: string): (r: string)
    ensures '\n' !in r
    ensures '\n' !in t ==> r == t
    ensures '\n' in t ==> r == JoinWith(KeptLines(Split(t, '\n')), "<br>")
  {
    if '\n' in t then
      var kept := KeptLines(Split(t, '\n'));
      KeptLinesExclude(Split(t, '\n'), '\n');
      assert '\n' !in "<br>";
      JoinWithExcludes(kept, "<br>", '\n');
      JoinWith(kept, "<br>")
    else t
  }

  /** Text without `&`, `<` or `>` is left as it is by escaping. */
  lemma {:induction false} EscapePlain(s: string)
    requires '&' !in s && '<' !in s && '>' !in s
    ensures Escape(s) == s
    decreases |s|
  {
    if s != [] {
      EscapePlain(s[1..]);
      assert s == [s[0]] + s[1..];
    }
  }

  lemma ThreeLinesSplit(x: char, y: char, z: char)
    requires x != '\n' && y != '\n' && z != '\n'
    ensures Split([x, '\n', y, '\n', z], '\n') == [[x], [y], [z]]
  {
    assert [x, '\n', y, '\n', z] == [x] + ['\n'] + ([y] + ['\n'] + [z]);
    SplitCons([x], '\n', [y] + ['\n'] + [z]);
    SplitCons([y], '\n', [z]);
    SplitAbsent([z], '\n');
  }

  lemma ThreeLinesKept(x: char, y: char, z: char)
    requires !IsSpace(x) && IsSpace(y) && !IsSpace(z)
    ensures KeptLines([[x], [y], [z]]) == [[x], [z]]
  {
    assert Blank([y]);
    TrimKeeps([x]);
    TrimKeeps([z]);
    var ls := [[x], [y], [z]];
    assert ls[1..] == [[y], [z]];
    assert ls[1..][1..] == [[z]];
    assert KeptLines([[z]]) == [[z]];
  }

  lemma JoinPair(a: string, b: string, sep: string)
    ensures JoinWith([a, b], sep) == a + sep + b
  {
    assert [a, b][1..] == [b];
  }

  /** Three lines whose middle one is blank: the blank line is dropped. */
  lemma BreakLinesThree(x: char, y: char, z: char)
    requires !IsSpace(x) && IsSpace(y) && !IsSpace(z) && y != '\n'
    ensures BreakLines([x, '\n', y, '\n', z]) == [x] + "<br>" + [z]
  {
    var t := [x, '\n', y, '\n', z];
    assert t[1] == '\n';
    ThreeLinesSplit(x, y, z);
    ThreeLinesKept(x, y, z);
    JoinPair([x], [z], "<br>");
  }

  lemma BreakLinesExampleText(s: string)
    requires s == "a\n \nb"
    ensures BreakLines(s) == "a<br>b"
  {
    assert s == ['a', '\n', ' ', '\n', 'b'];
    BreakLinesThree('a', ' ', 'b');
  }

  /** The line-break example: a blank middle line is dropped. */
  lemma BreakLinesExample(s: string)
    requires s == "a\n \nb"
    ensures BreakLines(Escape(s)) == "a<br>b"
  {
    EscapePlain(s);
    BreakLinesExampleText(s);
  }
  // ------------------------------------------------------------------ style

  /** The formatting the inline style reports. An attribute whose Python value is
      falsy (absent or empty) is `None` here. */
  datatype Style = Style(
    bold: bool,
    italic: bool,
    size: Option<string>,
    family: Option<string>,
    color: Option<string>)

  /** An attribute as the `if run.font.name:` style tests see it. */
  function Present(o: Option<string>): (r: Option<string>)
    ensures r.Some? <==> Truthy(o)
    ensures r.Some? ==> r == o
  {
    if Truthy(o) then o else None
  }

  function StyleOf(run: Run): Style {
    Style(run.bold, run.italic, Present(run.size), Present(run.font), Present(run.rgb))
  }

  /** One clause `pre + value + post` when the value is present, none otherwise. */
  function OptClause(o: Option<string>, pre: string, post: string): seq<string> {
    if o.Some? then [pre + o.value + post] else []
  }

  /** The entries of the `styles` list, each without its closing `;`, in the fixed
      order weight, italic, size, family, color. */
  function ClauseBodies(st: Style): seq<string> {
    [if st.bold then "font-weight:bold" else "font-weight:normal"]
    + (if st.italic then ["font-style:italic"] else [])
    + OptionalTail(st)
  }

  /** Each clause body followed by its `;`. */
  function Terminated(bs: seq<string>): seq<string> {
    if bs == [] then [] else [bs[0] + ";"] + Terminated(bs[1..])
  }

  /** `''.join(styles)`: every clause followed by `;`, no other separator. It reads
      back as exactly the run's formatting: each clause is there iff its attribute
      is, with its value, in the fixed order. */
  function StyleString(st: Style): (r: string)
    ensures NoSemicolons(st) ==> DecodeStyle(r) == Some(st)
  {
    ClausesRoundTrip(st);
    Concat(Terminated(ClauseBodies(st)))
  }

  /** No attribute value holds the clause terminator. */
  predicate NoSemicolons(st: Style) {
    (st.size.Some? ==> ';' !in st.size.value)
    && (st.family.Some? ==> ';' !in st.family.value)
    && (st.color.Some? ==> ';' !in st.color.value)
  }

  /** Reads the next clause if it has the shape `pre + value + post`. */
  function TakeClause(bs: seq<string>, pre: string, post: string): (Option<string>, seq<string>) {
    if bs != [] && |pre| + |post| <= |bs[0]| && StartsWith(bs[0], pre) && EndsWith(bs[0], post)
    then (Some(bs[0][|pre|..|bs[0]| - |post|]), bs[1..])
    else (None, bs)
  }

  /** Parses clause bodies in the fixed order; anything else is rejected. */
  function DecodeBodies(bs: seq<string>): Option<Style> {
    if bs == [] || (bs[0] != "font-weight:bold" && bs[0] != "font-weight:normal") then None
    else
      var italic := |bs| > 1 && bs[1] == "font-style:italic";
      var r1 := if italic then bs[2..] else bs[1..];
      var (size, r2) := TakeClause(r1, "font-size:", "pt");
      var (family, r3) := TakeClause(r2, "font-family:'", "'");
      var (color, r4) := TakeClause(r3, "color:#", "");
      if r4 == [] then Some(Style(bs[0] == "font-weight:bold", italic, size, family, color)) else None
  }

  /** Reads an inline style string back into the formatting it reports. */
  function DecodeStyle(s: string): Option<Style> {
    var ps := Split(s, ';');
    if ps[|ps| - 1] != [] then None else DecodeBodies(ps[..|ps| - 1])
  }

  lemma ConsAppendEmpty(bs: seq<string>)
    requires bs != []
    ensures [bs[0]] + (bs[1..] + [""]) == bs + [""]
  {
    assert bs == [bs[0]] + bs[1..];
  }

  lemma {:induction false} SplitTerminated(bs: seq<string>)
    requires forall k :: 0 <= k < |bs| ==> ';' !in bs[k]
    ensures Split(Concat(Terminated(bs)), ';') == bs + [""]
    decreases |bs|
  {
    if bs == [] {
      assert Terminated(bs) == [];
      assert IndexOf([], ';') == 0;
    } else {
      var tail := bs[1..];
      assert forall k :: 0 <= k < |tail| ==> ';' !in tail[k] by {
        forall k | 0 <= k < |tail| ensures ';' !in tail[k] {
          assert tail[k] == bs[k + 1];
        }
      }
      var rest := Concat(Terminated(tail));
      SplitTerminated(tail);
      assert Concat(Terminated(bs)) == bs[0] + [';'] + rest;
      SplitCons(bs[0], ';', rest);
      ConsAppendEmpty(bs);
    }
  }

  lemma DiffersAt(s: string, p: string, k: nat)
    requires k < |p| && k < |s| && s[k] != p[k]
    ensures !StartsWith(s, p)
  {
  }

  /** The next clause, when there is one, is not of the shape `pre`. */
  predicate NotLedBy(bs: seq<string>, pre: string) {
    bs == [] || !StartsWith(bs[0], pre)
  }

  lemma TakeClauseOpt(o: Option<string>, pre: string, post: string, rest: seq<string>)
    requires o.None? ==> NotLedBy(rest, pre)
    ensures TakeClause(OptClause(o, pre, post) + rest, pre, post) == (o, rest)
  {
    if o.Some? {
      var c := pre + o.value + post;
      var bs := [c] + rest;
      assert bs[0] == c && bs[1..] == rest;
      assert c[..|pre|] == pre;
      assert c[|c| - |post|..] == post;
      assert c[|pre|..|c| - |post|] == o.value;
    } else {
      assert OptClause(o, pre, post) + rest == rest;
    }
  }

  lemma ClauseShapes(st: Style)
    ensures NotLedBy(OptClause(st.color, "color:#", ""), "font-family:'")
    ensures NotLedBy(OptClause(st.family, "font-family:'", "'") + OptClause(st.color, "color:#", ""), "font-size:")
    ensures var t1 := OptionalTail(st);
            t1 == [] || t1[0] != "font-style:italic"
  {
    var t3 := OptClause(st.color, "color:#", "");
    var t2 := OptClause(st.family, "font-family:'", "'") + t3;
    var t1 := OptionalTail(st);
    if st.color.Some? {
      DiffersAt(t3[0], "font-family:'", 0);
      DiffersAt(t3[0], "font-size:", 0);
    }
    if st.family.Some? {
      assert t2[0] == "font-family:'" + st.family.value + "'";
      DiffersAt(t2[0], "font-size:", 5);
    }
    if t1 != [] {
      if st.size.Some? {
        assert t1[0] == "font-size:" + st.size.value + "pt";
        assert t1[0][6] != "font-style:italic"[6];
      } else if st.family.Some? {
        assert t1[0][5] != "font-style:italic"[5];
      } else {
        assert t1[0][0] != "font-style:italic"[0];
      }
    }
  }

  /** The optional clauses after the weight and italic ones. */
  function OptionalTail(st: Style): seq<string> {
    OptClause(st.size, "font-size:", "pt")
    + (OptClause(st.family, "font-family:'", "'") + OptClause(st.color, "color:#", ""))
  }

  lemma BodiesFree(st: Style)
    requires NoSemicolons(st)
    ensures forall k :: 0 <= k < |ClauseBodies(st)| ==> ';' !in ClauseBodies(st)[k]
  {
    var bs := ClauseBodies(st);
    var w := if st.bold then "font-weight:bold" else "font-weight:normal";
    var it := if st.italic then ["font-style:italic"] else [];
    assert bs == [w] + it + OptionalTail(st);
    forall k | 0 <= k < |bs| ensures ';' !in bs[k] {
      if bs[k] != w && bs[k] != "font-style:italic" {
        assert bs[k] in OptionalTail(st);
      }
    }
  }

  lemma DecodeTail(st: Style)
    ensures var t3 := OptClause(st.color, "color:#", "");
      var t2 := OptClause(st.family, "font-family:'", "'") + t3;
      && TakeClause(OptionalTail(st), "font-size:", "pt") == (st.size, t2)
      && TakeClause(t2, "font-family:'", "'") == (st.family, t3)
      && TakeClause(t3, "color:#", "") == (st.color, [])
  {
    var t3 := OptClause(st.color, "color:#", "");
    var t2 := OptClause(st.family, "font-family:'", "'") + t3;
    ClauseShapes(st);
    TakeClauseOpt(st.color, "color:#", "", []);
    assert t3 + [] == t3;
    TakeClauseOpt(st.family, "font-family:'", "'", t3);
    TakeClauseOpt(st.size, "font-size:", "pt", t2);
  }

  /** Reading back what follows the weight clause (and the italic one, if any). */
  lemma DecodeAfterWeight(st: Style, bs: seq<string>, r1: seq<string>)
    requires |bs| > 0 && bs[0] == (if st.bold then "font-weight:bold" else "font-weight:normal")
    requires (|bs| > 1 && bs[1] == "font-style:italic") == st.italic
    requires r1 == (if st.italic then bs[2..] else bs[1..]) && r1 == OptionalTail(st)
    ensures DecodeBodies(bs) == Some(st)
  {
    DecodeTail(st);
    assert (bs[0] == "font-weight:bold") == st.bold;
  }

  lemma DecodeItalic(st: Style)
    requires st.italic
    ensures DecodeBodies(ClauseBodies(st)) == Some(st)
  {
    var bs := ClauseBodies(st);
    var w := if st.bold then "font-weight:bold" else "font-weight:normal";
    var t1 := OptionalTail(st);
    assert bs == [w, "font-style:italic"] + t1;
    assert bs[2..] == t1;
    DecodeAfterWeight(st, bs, t1);
  }

  lemma DecodePlain(st: Style)
    requires !st.italic
    ensures DecodeBodies(ClauseBodies(st)) == Some(st)
  {
    var bs := ClauseBodies(st);
    var w := if st.bold then "font-weight:bold" else "font-weight:normal";
    var t1 := OptionalTail(st);
    ClauseShapes(st);
    assert bs == [w] + t1;
    assert bs[1..] == t1;
    DecodeAfterWeight(st, bs, t1);
  }

  lemma DecodeBodiesOf(st: Style)
    ensures DecodeBodies(ClauseBodies(st)) == Some(st)
  {
    if st.italic {
      DecodeItalic(st);
    } else {
      DecodePlain(st);
    }
  }



  lemma ClausesRoundTrip(st: Style)
    ensures NoSemicolons(st) ==> DecodeStyle(Concat(Terminated(ClauseBodies(st)))) == Some(st)
  {
    if NoSemicolons(st) {
      var bs := ClauseBodies(st);
      BodiesFree(st);
      SplitTerminated(bs);
      var ps := Split(Concat(Terminated(bs)), ';');
      assert ps == bs + [""];
      assert ps[..|ps| - 1] == bs;
      DecodeBodiesOf(st);
    }
  }

  /** The style always opens with exactly one of the two weight clauses. */
  lemma StyleWeightFirst(st: Style)
    ensures StartsWith(StyleString(st), "font-weight:bold;") <==> st.bold
    ensures StartsWith(StyleString(st), "font-weight:normal;") <==> !st.bold
  {
    var bs := ClauseBodies(st);
    var s := StyleString(st);
    var first := bs[0] + ";";
    assert Terminated(bs)[0] == first;
    assert s == first + Concat(Terminated(bs)[1..]);
    assert s[..|first|] == first;
    if st.bold {
      assert first == "font-weight:bold;";
      DiffersAt(s, "font-weight:normal;", 12);
    } else {
      assert first == "font-weight:normal;";
      DiffersAt(s, "font-weight:bold;", 12);
    }
  }

  // --------------------------------------------------------------- the run

  /** Text that is passed through as raw markup. */
  predicate IsRawMarkup(t: string) {
    StartsWith(t, "<img") || StartsWith(t, "<iframe")
  }

  function Anchor(url: string, text: string): string {
    "<a href=\"" + url + "\" target=\"_blank\">" + text + "</a>"
  }

  function Span(style: string, body: string): string {
    "<span style=\"" + style + "\">" + body + "</span>"
  }

  /** `run_to_html`: raw markup first, then a resolved hyperlink, then the empty
      run, then an escaped and styled span. */
  function RenderRun(run: Run): (r: string)
    ensures IsRawMarkup(Trim(run.text)) ==> r == Trim(run.text)
    ensures !IsRawMarkup(Trim(run.text)) && Truthy(run.link) ==> r == Anchor(run.link.value, Trim(run.text))
    ensures !IsRawMarkup(Trim(run.text)) && !Truthy(run.link) && Blank(run.text) ==> r == ""
    ensures !IsRawMarkup(Trim(run.text)) && !Truthy(run.link) && !Blank(run.text) ==>
      r == Span(StyleString(StyleOf(run)), BreakLines(Escape(run.text)))
    ensures Blank(r) <==> Blank(run.text) && !Truthy(run.link)
  {
    var raw := Trim(run.text);
    if IsRawMarkup(raw) then
      assert raw[0] == '<';
      raw
    else if Truthy(run.link) then
      var a := Anchor(run.link.value, raw);
      assert a[0] == '<';
      a
    else if Blank(run.text) then ""
    else
      var sp := Span(StyleString(StyleOf(run)), BreakLines(Escape(run.text)));
      assert sp[0] == '<';
      sp
  }

  /** The span path: its style reads back as the run's formatting when no value
      holds a `;`, its body holds no line feed, and a single-line body holds no raw
      `<` or `>` and unescapes to the run's text. */
  lemma SpanCase(run: Run)
    requires !IsRawMarkup(Trim(run.text)) && !Truthy(run.link) && !Blank(run.text)
    ensures var body := BreakLines(Escape(run.text));
      && RenderRun(run) == Span(StyleString(StyleOf(run)), body)
      && (NoSemicolons(StyleOf(run)) ==> DecodeStyle(StyleString(StyleOf(run))) == Some(StyleOf(run)))
      && '\n' !in body
      && ('\n' !in run.text ==> '<' !in body && '>' !in body && Unescape(body) == run.text)
  {
    UnescapeEscape(run.text);
  }
}
