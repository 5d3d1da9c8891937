/**
  A .docx document as the generator sees it through python-docx: paragraphs
  whose content is a sequence of runs and hyperlinks, tables of cells holding
  paragraphs, and sections with a header and a footer.

  Paragraphs are kept in one store and referred to by position, the way
  python-docx paragraph objects are views onto shared XML elements: a merged
  table cell or a header linked to the previous section lists the same
  paragraph more than once.
  */
module Document {
  import opened Wrappers
  import opened Context
  import opened Substitution
  import opened Placeholders

  datatype Underline = UnderlineSingle | UnderlineNone | UnderlineStyled(kind: string)

  datatype Rgb = Rgb(red: bv8, green: bv8, blue: bv8)

  /**
    The run formatting the renderer saves and restores: `None` means the run
    inherits the value from its paragraph or character style.
    */
  datatype Style = Style(bold: Option<bool>, italic: Option<bool>, underline: Option<Underline>,
                         fontName: Option<string>, fontSize: Option<int>, fontColor: Option<Rgb>)

  datatype Run = Run(text: string, style: Style)

  /** A child of a paragraph that carries text: a run, or a hyperlink (whose own runs are not paragraph runs). */
  datatype Inline = RunItem(run: Run) | HyperlinkItem(text: string)

  type Content = seq<Inline>

  datatype Cell = Cell(paragraphs: seq<nat>)
  datatype Row = Row(cells: seq<Cell>)
  datatype Table = Table(rows: seq<Row>)
  datatype Section = Section(header: seq<nat>, footer: seq<nat>)

  /** A parsed document: the paragraph store and where each paragraph appears. */
  datatype Doc = Doc(store: seq<Content>, body: seq<nat>, tables: seq<Table>, sections: seq<Section>)

  // ---------------------------------------------------------------------
  // Paragraph text and runs
  // ---------------------------------------------------------------------

  function InlineText(x: Inline): string {
    match x
    case RunItem(r) => r.text
    case HyperlinkItem(t) => t
  }

  /** `paragraph.text`: the text of its runs and hyperlinks, in document order. */
  function TextOf(c: Content): string {
    if c == [] then "" else InlineText(c[0]) + TextOf(c[1..])
  }

  lemma {:induction false} TextOfAppend(a: Content, b: Content)
    ensures TextOf(a + b) == TextOf(a) + TextOf(b)
  {
    if a == [] {
      assert a + b == b;
    } else {
      var ab := a + b;
      assert ab[0] == a[0] && ab[1..] == a[1..] + b;
      assert TextOf(ab) == InlineText(a[0]) + TextOf(a[1..] + b);
      TextOfAppend(a[1..], b);
      assert TextOf(a) == InlineText(a[0]) + TextOf(a[1..]);
    }
  }

  /** `len(paragraph.runs)`. */
  function RunCount(c: Content): nat {
    if c == [] then 0 else (if c[0].RunItem? then 1 else 0) + RunCount(c[1..])
  }

  predicate HasRun(c: Content) {
    exists i :: 0 <= i < |c| && c[i].RunItem?
  }

  /** The position of `paragraph.runs[0]` in the paragraph's content. */
  function FirstRunIndex(c: Content): (i: nat)
    requires HasRun(c)
    ensures i < |c| && c[i].RunItem?
    ensures forall j :: 0 <= j < i ==> !c[j].RunItem?
  {
    if c[0].RunItem? then 0
    else
      assert HasRun(c[1..]) by {
        var i :| 0 <= i < |c| && c[i].RunItem?;
        assert c[1..][i - 1] == c[i];
      }
      1 + FirstRunIndex(c[1..])
  }

  /** The content without its runs: what is left once every run is removed. */
  function NonRuns(c: Content): (r: Content)
    ensures forall i :: 0 <= i < |r| ==> !r[i].RunItem?
    ensures RunCount(r) == 0
  {
    if c == [] then []
    else if c[0].RunItem? then NonRuns(c[1..])
    else
      var t := NonRuns(c[1..]);
      assert ([c[0]] + t)[1..] == t;
      [c[0]] + t
  }

  /** The content with only its first `k` runs kept; every other child stays in place. */
  function KeepRuns(c: Content, k: nat): Content {
    if c == [] then []
    else if c[0].RunItem? then
      (if k > 0 then [c[0]] + KeepRuns(c[1..], k - 1) else KeepRuns(c[1..], 0))
    else [c[0]] + KeepRuns(c[1..], k)
  }

  /** The content with its run number `k` (counting runs only, from 0) removed. */
  function RemoveRun(c: Content, k: nat): Content {
    if c == [] then []
    else if c[0].RunItem? then
      (if k == 0 then c[1..] else [c[0]] + RemoveRun(c[1..], k - 1))
    else [c[0]] + RemoveRun(c[1..], k)
  }

  /** Keeping at least as many runs as there are keeps everything. */
  lemma {:induction false} KeepAllRuns(c: Content, k: nat)
    requires RunCount(c) <= k
    ensures KeepRuns(c, k) == c
  {
    if c != [] {
      KeepAllRuns(c[1..], if c[0].RunItem? then k - 1 else k);
    }
  }

  /**
    Removing the last kept run: with runs `0..k` kept, taking out run `k`
    leaves runs `0..k-1` kept.
    */
  lemma {:induction false} RemoveLastKept(c: Content, k: nat)
    requires k < RunCount(c)
    ensures RemoveRun(KeepRuns(c, k + 1), k) == KeepRuns(c, k)
  {
    if c[0].RunItem? {
      if k == 0 {
        assert KeepRuns(c, 1) == [c[0]] + KeepRuns(c[1..], 0);
        assert ([c[0]] + KeepRuns(c[1..], 0))[1..] == KeepRuns(c[1..], 0);
      } else {
        RemoveLastKept(c[1..], k - 1);
        assert ([c[0]] + KeepRuns(c[1..], k))[1..] == KeepRuns(c[1..], k);
      }
    } else {
      RemoveLastKept(c[1..], k);
      assert ([c[0]] + KeepRuns(c[1..], k + 1))[1..] == KeepRuns(c[1..], k + 1);
    }
  }

  /** Keeping one run keeps the children before the first run, the first run, and the non-runs after it. */
  lemma KeepFirstRun(c: Content)
    requires HasRun(c)
    ensures var f := FirstRunIndex(c);
            KeepRuns(c, 1) == c[..f] + [c[f]] + NonRuns(c[f + 1..])
  {
    KeepFirstRunAt(c, FirstRunIndex(c));
  }

  /** `KeepFirstRun`, for the run at `f` that no run precedes. */
  lemma {:induction false} KeepFirstRunAt(c: Content, f: nat)
    requires f < |c| && c[f].RunItem?
    requires forall j :: 0 <= j < f ==> !c[j].RunItem?
    ensures KeepRuns(c, 1) == c[..f] + [c[f]] + NonRuns(c[f + 1..])
    decreases f
  {
    if f == 0 {
      DropAllRuns(c[1..]);
      assert c[..0] == [] && c[0 + 1..] == c[1..];
    } else {
      var t := c[1..];
      forall j | 0 <= j < f - 1 ensures !t[j].RunItem? {
        assert t[j] == c[j + 1];
      }
      KeepFirstRunAt(t, f - 1);
      calc {
        KeepRuns(c, 1);
        { assert !c[0].RunItem?; }
        [c[0]] + KeepRuns(t, 1);
        [c[0]] + (t[..f - 1] + [t[f - 1]] + NonRuns(t[f..]));
        { assert t[f - 1] == c[f] && t[f..] == c[f + 1..]; }
        [c[0]] + (t[..f - 1] + [c[f]] + NonRuns(c[f + 1..]));
        { assert [c[0]] + t[..f - 1] == c[..f]; }
        c[..f] + [c[f]] + NonRuns(c[f + 1..]);
      }
    }
  }

  /** Keeping no run removes them all. */
  lemma {:induction false} DropAllRuns(c: Content)
    ensures KeepRuns(c, 0) == NonRuns(c)
  {
    if c != [] {
      DropAllRuns(c[1..]);
    }
  }

  /** Replacing one run by another keeps the number of runs. */
  lemma {:induction false} RunCountUpdate(c: Content, i: nat, r: Run)
    requires i < |c| && c[i].RunItem?
    ensures RunCount(c[i := RunItem(r)]) == RunCount(c)
  {
    if i > 0 {
      RunCountUpdate(c[1..], i - 1, r);
      assert c[i := RunItem(r)][1..] == c[1..][i - 1 := RunItem(r)];
    }
  }

  /**
    Giving the first run new text and formatting: it stays the first run, the
    number of runs is kept, and keeping only it yields the children before
    it, it, and the non-runs after it.
    */
  lemma UpdateFirstRun(c: Content, t: string, st: Style)
    requires HasRun(c)
    ensures var f := FirstRunIndex(c);
            var c1 := c[f := RunItem(Run(t, st))];
            HasRun(c1) && RunCount(c1) == RunCount(c)
            && KeepRuns(c1, 1) == c[..f] + [RunItem(Run(t, st))] + NonRuns(c[f + 1..])
  {
    var f := FirstRunIndex(c);
    var c1 := c[f := RunItem(Run(t, st))];
    assert c1[f].RunItem?;
    assert HasRun(c1);
    assert forall j :: 0 <= j < f ==> c1[j] == c[j];
    assert FirstRunIndex(c1) == f;
    RunCountUpdate(c, f, Run(t, st));
    KeepFirstRun(c1);
    assert c1[..f] == c[..f] && c1[f + 1..] == c[f + 1..];
  }

  /** A paragraph with a run has at least one. */
  lemma {:induction false} HasRunCount(c: Content)
    requires HasRun(c)
    ensures RunCount(c) >= 1
  {
    if !c[0].RunItem? {
      assert HasRun(c[1..]) by {
        var f := FirstRunIndex(c);
        assert c[1..][f - 1] == c[f];
      }
      HasRunCount(c[1..]);
    }
  }

  // ---------------------------------------------------------------------
  // Rewriting a paragraph whose text changed
  // ---------------------------------------------------------------------

  /** A saved font attribute is written back only when it is truthy. */
  predicate TruthyName(n: Option<string>) { n.Some? && n.value != "" }
  predicate TruthySize(n: Option<int>) { n.Some? && n.value != 0 }

  /**
    The first run's formatting after the renderer writes back the values it
    saved: bold, italic and underline always, font name and size only when
    truthy, colour only when it was an explicit RGB value.
    */
  function RestoreStyle(saved: Style, current: Style): (s: Style)
    ensures s.bold == saved.bold && s.italic == saved.italic && s.underline == saved.underline
    ensures s.fontName == (if TruthyName(saved.fontName) then saved.fontName else current.fontName)
    ensures s.fontSize == (if TruthySize(saved.fontSize) then saved.fontSize else current.fontSize)
    ensures s.fontColor == (if saved.fontColor.Some? then saved.fontColor else current.fontColor)
  {
    Style(saved.bold, saved.italic, saved.underline,
          if TruthyName(saved.fontName) then saved.fontName else current.fontName,
          if TruthySize(saved.fontSize) then saved.fontSize else current.fontSize,
          if saved.fontColor.Some? then saved.fontColor else current.fontColor)
  }

  /** Setting a run's text keeps its properties, so restoring what was saved changes nothing. */
  lemma RestoreKeepsStyle(s: Style)
    ensures RestoreStyle(s, s) == s
  {
  }

  /** The formatting of the run added to a paragraph that had none: Times New Roman, the rest inherited. */
  function NewRunStyle(): Style {
    Style(None, None, None, Some("Times New Roman"), None, None)
  }

  /**
    The content of a paragraph whose text became `t`. With runs: the children
    before the first run stay, the first run holds `t` with its formatting,
    the runs after it are gone and the hyperlinks after it stay. Without runs:
    the paragraph is cleared and holds one new run.
    */
  function Rewrite(c: Content, t: string): (r: Content)
    ensures HasRun(c) ==> RunCount(r) == 1
    ensures !HasRun(c) ==> r == [RunItem(Run(t, NewRunStyle()))]
  {
    if HasRun(c) then
      var f := FirstRunIndex(c);
      var first := c[f].run;
      var r := c[..f] + [RunItem(Run(t, RestoreStyle(first.style, first.style)))] + NonRuns(c[f + 1..]);
      RewriteRunCount(c[..f], RunItem(Run(t, first.style)), NonRuns(c[f + 1..]));
      r
    else
      [RunItem(Run(t, NewRunStyle()))]
  }

  /**
    The rewrite with runs is the paragraph whose first run took the text and
    its own formatting back, with only that run kept.
    */
  lemma RewriteKeepsFirstRun(c: Content, t: string)
    requires HasRun(c)
    ensures var f := FirstRunIndex(c);
            var st := c[f].run.style;
            var c1 := c[f := RunItem(Run(t, RestoreStyle(st, st)))];
            HasRun(c1) && KeepRuns(c1, 1) == Rewrite(c, t)
  {
    var f := FirstRunIndex(c);
    var st := c[f].run.style;
    var x := RunItem(Run(t, RestoreStyle(st, st)));
    UpdateFirstRun(c, t, RestoreStyle(st, st));
    assert Rewrite(c, t) == c[..f] + [x] + NonRuns(c[f + 1..]);
  }

  lemma RewriteRunCount(a: Content, x: Inline, b: Content)
    requires forall j :: 0 <= j < |a| ==> !a[j].RunItem?
    requires x.RunItem? && RunCount(b) == 0
    ensures RunCount(a + [x] + b) == 1
  {
    RunCountAppend(a, [x] + b);
    NoRunsCount(a);
    assert ([x] + b)[1..] == b;
    assert a + [x] + b == a + ([x] + b);
  }

  lemma {:induction false} RunCountAppend(a: Content, b: Content)
    ensures RunCount(a + b) == RunCount(a) + RunCount(b)
  {
    if a == [] {
      assert a + b == b;
    } else {
      RunCountAppend(a[1..], b);
      assert (a + b)[1..] == a[1..] + b;
    }
  }

  lemma {:induction false} NoRunsCount(a: Content)
    requires forall j :: 0 <= j < |a| ==> !a[j].RunItem?
    ensures RunCount(a) == 0
  {
    if a != [] {
      NoRunsCount(a[1..]);
    }
  }

  /**
    The text of a rewritten paragraph with runs: the text of the hyperlinks
    before the first run, the new text, and the text of the hyperlinks after
    it. Since the new text was computed from the whole paragraph text, the
    text of a hyperlink after the first run appears twice.
    */
  lemma RewriteText(c: Content, t: string)
    requires HasRun(c)
    ensures var f := FirstRunIndex(c);
            TextOf(Rewrite(c, t)) == TextOf(c[..f]) + t + TextOf(NonRuns(c[f + 1..]))
  {
    var f := FirstRunIndex(c);
    var x := RunItem(Run(t, RestoreStyle(c[f].run.style, c[f].run.style)));
    TextOfAppend(c[..f] + [x], NonRuns(c[f + 1..]));
    TextOfAppend(c[..f], [x]);
    assert TextOf([x]) == t by { assert [x][1..] == []; }
  }

  /** A paragraph made of runs only ends as a single run holding the new text, formatted as its first run was. */
  lemma RewriteRunsOnly(c: Content, t: string)
    requires |c| > 0 && forall i :: 0 <= i < |c| ==> c[i].RunItem?
    ensures Rewrite(c, t) == [RunItem(Run(t, c[0].run.style))]
    ensures TextOf(Rewrite(c, t)) == t
  {
    assert c[0].RunItem?;
    assert HasRun(c);
    assert NonRuns(c[1..]) == [] by {
      AllRunsNonRuns(c[1..]);
    }
    assert c[..0] == [];
    assert [RunItem(Run(t, c[0].run.style))][1..] == [];
  }

  lemma {:induction false} AllRunsNonRuns(c: Content)
    requires forall i :: 0 <= i < |c| ==> c[i].RunItem?
    ensures NonRuns(c) == []
  {
    if c != [] {
      AllRunsNonRuns(c[1..]);
    }
  }

  /**
    A run followed by a hyperlink: the hyperlink's text was part of the text
    the substitution saw, and after the rewrite it follows the new text again.
    */
  lemma HyperlinkAfterRunRepeated(r: Run, h: string, t: string)
    ensures TextOf(Rewrite([RunItem(r), HyperlinkItem(h)], t)) == t + h
  {
    var c := [RunItem(r), HyperlinkItem(h)];
    assert c[0].RunItem?;
    assert HasRun(c);
    RewriteText(c, t);
    assert c[..0] == [] && c[1..] == [HyperlinkItem(h)];
    assert NonRuns([HyperlinkItem(h)]) == [HyperlinkItem(h)];
    assert TextOf([HyperlinkItem(h)]) == h by { assert [HyperlinkItem(h)][1..] == []; }
  }

  // ---------------------------------------------------------------------
  // One paragraph, as `_replace_text_in_element` treats it
  // ---------------------------------------------------------------------

  /** The number of replacements counted in a paragraph; an empty paragraph counts none. */
  function ReplacedCount(c: Content, ctx: seq<Entry>): nat {
    if TextOf(c) == "" then 0 else Substitute(TextOf(c), ctx).1
  }

  /** The paragraph's content afterwards: rewritten when its text changed, untouched otherwise. */
  function ReplacedContent(c: Content, ctx: seq<Entry>): Content {
    var text := TextOf(c);
    if text == "" then c
    else
      var newText := Substitute(text, ctx).0;
      if newText == text then c else Rewrite(c, newText)
  }

  /** A paragraph in which nothing was counted is left as it was. */
  lemma NothingCountedUntouched(c: Content, ctx: seq<Entry>)
    ensures ReplacedCount(c, ctx) == 0 ==> ReplacedContent(c, ctx) == c
  {
    NoCountNoChange(TextOf(c), ctx);
  }

  // ---------------------------------------------------------------------
  // Traversal order
  // ---------------------------------------------------------------------

  function CellsParagraphs(cells: seq<Cell>): seq<nat> {
    if cells == [] then [] else cells[0].paragraphs + CellsParagraphs(cells[1..])
  }

  function RowsParagraphs(rows: seq<Row>): seq<nat> {
    if rows == [] then [] else CellsParagraphs(rows[0].cells) + RowsParagraphs(rows[1..])
  }

  /** The paragraphs of every cell of every row of every table, in that order. */
  function TablesParagraphs(tables: seq<Table>): seq<nat> {
    if tables == [] then [] else RowsParagraphs(tables[0].rows) + TablesParagraphs(tables[1..])
  }

  /** The header paragraphs, then the footer paragraphs, of each section in turn. */
  function SectionsParagraphs(sections: seq<Section>): seq<nat> {
    if sections == [] then []
    else sections[0].header + sections[0].footer + SectionsParagraphs(sections[1..])
  }

  /** The paragraphs placeholder extraction reads: the body, then table cells. */
  function ExtractionOrder(d: Doc): seq<nat> {
    d.body + TablesParagraphs(d.tables)
  }

  /** The paragraphs rendering visits: the body, table cells, then headers and footers. */
  function RenderOrder(d: Doc): seq<nat> {
    ExtractionOrder(d) + SectionsParagraphs(d.sections)
  }

  /** Every listed paragraph is in the store. */
  predicate ValidDoc(d: Doc) {
    InStore(RenderOrder(d), |d.store|)
  }

  /** A document as the parser produces it: every listed paragraph exists. */
  type Docx = d: Doc | ValidDoc(d) witness Doc([], [], [], [])

  lemma ExtractionInRender(d: Doc)
    ensures RenderOrder(d)[..|ExtractionOrder(d)|] == ExtractionOrder(d)
  {
  }

  // ---------------------------------------------------------------------
  // Rendering a list of paragraphs
  // ---------------------------------------------------------------------

  predicate InStore(order: seq<nat>, n: nat) {
    forall k :: 0 <= k < |order| ==> order[k] < n
  }

  /**
    The store and the running total after visiting `order` one paragraph at a
    time; a paragraph listed twice is visited again in its rewritten state.
    */
  function Replay(order: seq<nat>, ctx: seq<Entry>, st: seq<Content>): (r: (seq<Content>, nat))
    requires InStore(order, |st|)
    ensures |r.0| == |st|
    decreases |order|
  {
    if order == [] then (st, 0)
    else
      var (s, n) := Replay(order[..|order| - 1], ctx, st);
      var p := order[|order| - 1];
      (s[p := ReplacedContent(s[p], ctx)], n + ReplacedCount(s[p], ctx))
  }

  /** A prefix of a listing within the store is within the store. */
  lemma InStorePrefix(order: seq<nat>, n: nat, k: nat)
    requires InStore(order, n) && k <= |order|
    ensures InStore(order[..k], n)
  {
    forall j | 0 <= j < k ensures order[..k][j] < n {
      assert order[..k][j] == order[j];
    }
  }

  /** Visiting one more listed paragraph replaces in it, in its current state. */
  lemma ReplayPrefix(order: seq<nat>, ctx: seq<Entry>, st: seq<Content>, k: nat)
    requires InStore(order, |st|) && k < |order|
    ensures InStore(order[..k], |st|) && InStore(order[..k + 1], |st|)
    ensures var s := Replay(order[..k], ctx, st).0;
            Replay(order[..k + 1], ctx, st).0 == s[order[k] := ReplacedContent(s[order[k]], ctx)]
    ensures var s := Replay(order[..k], ctx, st).0;
            Replay(order[..k + 1], ctx, st).1 == Replay(order[..k], ctx, st).1 + ReplacedCount(s[order[k]], ctx)
  {
    InStorePrefix(order, |st|, k);
    InStorePrefix(order, |st|, k + 1);
    assert order[..k + 1][..k] == order[..k];
  }

  /** Visiting `a` then `b` is visiting `b` from the store `a` left, and the totals add up. */
  lemma {:induction false} ReplayAppend(a: seq<nat>, b: seq<nat>, ctx: seq<Entry>, st: seq<Content>)
    requires InStore(a + b, |st|)
    ensures InStore(a, |st|) && InStore(b, |st|)
    ensures Replay(a + b, ctx, st).0 == Replay(b, ctx, Replay(a, ctx, st).0).0
    ensures Replay(a + b, ctx, st).1 == Replay(a, ctx, st).1 + Replay(b, ctx, Replay(a, ctx, st).0).1
    decreases |b|
  {
    InStoreSplit(a, b, |st|);
    if b == [] {
      assert a + b == a;
    } else {
      var init := b[..|b| - 1];
      assert (a + b)[..|a + b| - 1] == a + init;
      assert (a + b)[|a + b| - 1] == b[|b| - 1];
      InStoreSplit(a, init, |st|) by {
        forall k | 0 <= k < |a + init| ensures (a + init)[k] < |st| {
          assert (a + init)[k] == (a + b)[k];
        }
      }
      ReplayAppend(a, init, ctx, st);
    }
  }

  /** Both halves of a listing within the store are within it. */
  lemma InStoreSplit(a: seq<nat>, b: seq<nat>, n: nat)
    requires InStore(a + b, n)
    ensures InStore(a, n) && InStore(b, n)
  {
    forall k | 0 <= k < |a| ensures a[k] < n {
      assert (a + b)[k] == a[k];
    }
    forall k | 0 <= k < |b| ensures b[k] < n {
      assert (a + b)[|a| + k] == b[k];
    }
  }

  /**
    Rendering visits the body, then the table cells, then the headers and
    footers, each part starting from the store the previous one left, and
    the total is the sum of the three parts' counts.
    */
  lemma RenderParts(d: Docx, ctx: seq<Entry>)
    ensures InStore(d.body, |d.store|) && InStore(TablesParagraphs(d.tables), |d.store|)
            && InStore(SectionsParagraphs(d.sections), |d.store|)
    ensures var body := Replay(d.body, ctx, d.store);
            var cells := Replay(TablesParagraphs(d.tables), ctx, body.0);
            var sections := Replay(SectionsParagraphs(d.sections), ctx, cells.0);
            Replay(RenderOrder(d), ctx, d.store).0 == sections.0
            && Replay(RenderOrder(d), ctx, d.store).1 == body.1 + cells.1 + sections.1
  {
    ReplayAppend(ExtractionOrder(d), SectionsParagraphs(d.sections), ctx, d.store);
    ReplayAppend(d.body, TablesParagraphs(d.tables), ctx, d.store);
  }

  /** The replacement counts of the listed paragraphs, each taken on its original content. */
  function SumCounts(order: seq<nat>, ctx: seq<Entry>, st: seq<Content>): nat
    requires InStore(order, |st|)
    decreases |order|
  {
    if order == [] then 0
    else SumCounts(order[..|order| - 1], ctx, st) + ReplacedCount(st[order[|order| - 1]], ctx)
  }

  predicate Distinct(order: seq<nat>) {
    forall i, j :: 0 <= i < j < |order| ==> order[i] != order[j]
  }

  /**
    Without repeated paragraphs, visiting them in order rewrites each one from
    its original content, leaves every other paragraph alone, and totals the
    paragraphs' own counts.
    */
  lemma {:induction false} ReplayDistinct(order: seq<nat>, ctx: seq<Entry>, st: seq<Content>)
    requires InStore(order, |st|) && Distinct(order)
    ensures forall p :: 0 <= p < |st| && p in order ==> Replay(order, ctx, st).0[p] == ReplacedContent(st[p], ctx)
    ensures forall p :: 0 <= p < |st| && p !in order ==> Replay(order, ctx, st).0[p] == st[p]
    ensures Replay(order, ctx, st).1 == SumCounts(order, ctx, st)
    decreases |order|
  {
    if order != [] {
      var init := order[..|order| - 1];
      var last := order[|order| - 1];
      assert last !in init;
      ReplayDistinct(init, ctx, st);
      forall p | 0 <= p < |st| && p in order
        ensures Replay(order, ctx, st).0[p] == ReplacedContent(st[p], ctx)
      {
        if p != last {
          assert p in init;
        }
      }
    }
  }

  // ---------------------------------------------------------------------
  // Placeholders found in a document
  // ---------------------------------------------------------------------

  function Elements(ts: seq<string>): set<string> {
    set i | 0 <= i < |ts| :: ts[i]
  }

  /** The placeholder tokens in the listed paragraphs, gathered into a set. */
  function TokensIn(store: seq<Content>, order: seq<nat>): set<string>
    requires InStore(order, |store|)
    decreases |order|
  {
    if order == [] then {}
    else TokensIn(store, order[..|order| - 1]) + Elements(FindTokens(TextOf(store[order[|order| - 1]])))
  }

  /** Gathering from one more listed paragraph adds its tokens. */
  lemma TokensInPrefix(store: seq<Content>, order: seq<nat>, k: nat)
    requires InStore(order, |store|) && k < |order|
    ensures InStore(order[..k], |store|) && InStore(order[..k + 1], |store|)
    ensures TokensIn(store, order[..k + 1]) == TokensIn(store, order[..k]) + ParagraphTokens(store, order[k])
  {
    InStorePrefix(order, |store|, k);
    InStorePrefix(order, |store|, k + 1);
    assert order[..k + 1][..k] == order[..k];
  }

  /** The tokens the regular expression finds in paragraph `p`. */
  function ParagraphTokens(store: seq<Content>, p: nat): set<string>
    requires p < |store|
  {
    Elements(FindTokens(TextOf(store[p])))
  }

  /** A token is gathered exactly when the regular expression finds it in one of the listed paragraphs. */
  lemma TokensInMembership(store: seq<Content>, order: seq<nat>, t: string)
    requires InStore(order, |store|)
    ensures t in TokensIn(store, order) <==> exists k :: 0 <= k < |order| && t in ParagraphTokens(store, order[k])
  {
    if t in TokensIn(store, order) {
      TokensInSound(store, order, t);
    }
    if exists k :: 0 <= k < |order| && t in ParagraphTokens(store, order[k]) {
      var k :| 0 <= k < |order| && t in ParagraphTokens(store, order[k]);
      TokensInComplete(store, order, t, k);
    }
  }

  /** A gathered token was found in one of the listed paragraphs. */
  lemma {:induction false} TokensInSound(store: seq<Content>, order: seq<nat>, t: string)
    requires InStore(order, |store|) && t in TokensIn(store, order)
    ensures exists k :: 0 <= k < |order| && t in ParagraphTokens(store, order[k])
    decreases |order|
  {
    var last := |order| - 1;
    TokensInPrefix(store, order, last);
    assert order[..last + 1] == order;
    if t in ParagraphTokens(store, order[last]) {
      assert 0 <= last < |order| && t in ParagraphTokens(store, order[last]);
    } else {
      var init := order[..last];
      TokensInSound(store, init, t);
      var k :| 0 <= k < |init| && t in ParagraphTokens(store, init[k]);
      assert init[k] == order[k];
    }
  }

  /** A token found in the paragraph listed at `k` is gathered. */
  lemma {:induction false} TokensInComplete(store: seq<Content>, order: seq<nat>, t: string, k: nat)
    requires InStore(order, |store|) && k < |order| && t in ParagraphTokens(store, order[k])
    ensures t in TokensIn(store, order)
    decreases |order|
  {
    var last := |order| - 1;
    TokensInPrefix(store, order, last);
    assert order[..last + 1] == order;
    if k < last {
      var init := order[..last];
      assert init[k] == order[k];
      TokensInComplete(store, init, t, k);
    }
  }

  lemma ExtractionInStore(d: Doc)
    requires ValidDoc(d)
    ensures InStore(ExtractionOrder(d), |d.store|)
  {
    var e := ExtractionOrder(d);
    forall k | 0 <= k < |e| ensures e[k] < |d.store| {
      assert RenderOrder(d)[k] == e[k];
    }
  }

  /** The tokens `load_template_variables` collects: from body paragraphs and table cells only. */
  function FoundTokens(d: Docx): set<string> {
    ExtractionInStore(d);
    TokensIn(d.store, ExtractionOrder(d))
  }

  /** Everything collected has the `{{name}}` shape. */
  lemma FoundTokensAreTokens(d: Docx)
    ensures forall t :: t in FoundTokens(d) ==> IsToken(t)
  {
    ExtractionInStore(d);
    var order := ExtractionOrder(d);
    forall t | t in FoundTokens(d) ensures IsToken(t) {
      TokensInMembership(d.store, order, t);
      var k :| 0 <= k < |order| && t in ParagraphTokens(d.store, order[k]);
      var ts := FindTokens(TextOf(d.store[order[k]]));
      FindTokensSound(TextOf(d.store[order[k]]));
      var i :| 0 <= i < |ts| && ts[i] == t;
    }
  }

  /**
    Headers and footers are not read: two documents with the same body and
    tables, whose extracted paragraphs agree, yield the same tokens.
    */
  lemma FoundTokensIgnoreSections(d: Docx, e: Docx)
    requires d.body == e.body && d.tables == e.tables
    requires forall p :: p in ExtractionOrder(d) ==> p < |d.store| && p < |e.store| && d.store[p] == e.store[p]
    ensures FoundTokens(d) == FoundTokens(e)
  {
    ExtractionInStore(d);
    ExtractionInStore(e);
    var order := ExtractionOrder(d);
    forall t ensures t in FoundTokens(d) <==> t in FoundTokens(e) {
      TokensInMembership(d.store, order, t);
      TokensInMembership(e.store, order, t);
      forall k | 0 <= k < |order| ensures ParagraphTokens(d.store, order[k]) == ParagraphTokens(e.store, order[k]) {
        assert order[k] in order;
      }
    }
  }
}
