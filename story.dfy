/**
 * The document renderer's story: the loop of `generate_pdf` that turns the
 * optimised résumé text into a list of flowables, one paragraph and one
 * spacer per non-blank line. Laying the story out on pages is the layout
 * library's work and is not part of this model.
 */
module Story {
  import opened PyText

  /** The sample style sheet's body style, used for every paragraph. */
  const BodyStyle := "Normal"

  datatype Flowable = Paragraph(text: string, style: string) | Spacer(width: int, height: int)

  /** The fixed gap after every paragraph: `Spacer(1, 12)`. */
  const Gap := Spacer(1, 12)

  predicate IsBlank(line: string) {
    Strip(line) == ""
  }

  /** The texts of the paragraphs made from `lines`: each non-blank line, stripped, in order. */
  function ParagraphTexts(lines: seq<string>): (texts: seq<string>)
    ensures |texts| <= |lines|
  {
    if lines == [] then []
    else
      var last := lines[|lines| - 1];
      ParagraphTexts(lines[..|lines| - 1]) + (if IsBlank(last) then [] else [Strip(last)])
  }

  /** The flowables for a list of paragraph texts: each paragraph followed by the gap. */
  function Layout(texts: seq<string>): seq<Flowable> {
    if texts == [] then []
    else Layout(texts[..|texts| - 1]) + [Paragraph(texts[|texts| - 1], BodyStyle), Gap]
  }

  lemma {:induction false} LayoutAt(texts: seq<string>)
    ensures |Layout(texts)| == 2 * |texts|
    ensures forall k :: 0 <= k < |texts| ==>
      Layout(texts)[2 * k] == Paragraph(texts[k], BodyStyle) && Layout(texts)[2 * k + 1] == Gap
  {
    if texts != [] {
      var init := texts[..|texts| - 1];
      LayoutAt(init);
      var l := Layout(texts);
      forall k | 0 <= k < |texts|
        ensures l[2 * k] == Paragraph(texts[k], BodyStyle) && l[2 * k + 1] == Gap
      {
        if k < |init| {
          assert l[2 * k] == Layout(init)[2 * k] && l[2 * k + 1] == Layout(init)[2 * k + 1];
          assert init[k] == texts[k];
        }
      }
    }
  }

  /** One more line adds its paragraph and the gap when it is not blank, and nothing when it is. */
  lemma LayoutStep(lines: seq<string>, i: nat)
    requires i < |lines|
    ensures Layout(ParagraphTexts(lines[..i + 1])) ==
      Layout(ParagraphTexts(lines[..i])) + if IsBlank(lines[i]) then [] else [Paragraph(Strip(lines[i]), BodyStyle), Gap]
  {
    var done := ParagraphTexts(lines[..i]);
    assert lines[..i + 1][..i] == lines[..i];
    assert ParagraphTexts(lines[..i + 1]) == done + (if IsBlank(lines[i]) then [] else [Strip(lines[i])]);
    if !IsBlank(lines[i]) {
      assert (done + [Strip(lines[i])])[..|done|] == done;
    } else {
      assert done + [] == done;
    }
  }

  /**
   * The story list built by `generate_pdf(text)`: for the `k`-th non-blank
   * line of `text.split("\n")`, the paragraph of its stripped text at
   * position `2k` and the gap at position `2k + 1`, and nothing else.
   */
  method BuildStory(text: string) returns (story: seq<Flowable>)
    ensures |story| == 2 * |ParagraphTexts(Split(text, '\n'))|
    ensures forall k :: 0 <= k < |ParagraphTexts(Split(text, '\n'))| ==>
      story[2 * k] == Paragraph(ParagraphTexts(Split(text, '\n'))[k], BodyStyle) && story[2 * k + 1] == Gap
  {
    var lines := Split(text, '\n');
    story := [];
    for i := 0 to |lines|
      invariant story == Layout(ParagraphTexts(lines[..i]))
    {
      var line := lines[i];
      LayoutStep(lines, i);
      if !IsBlank(line) {
        story := story + [Paragraph(Strip(line), BodyStyle), Gap];
      }
    }
    assert lines[..|lines|] == lines;
    LayoutAt(ParagraphTexts(lines));
  }

  // ---------------------------------------------------------------- properties

  /** Paragraph texts distribute over the concatenation of line lists: lines keep their order. */
  lemma {:induction false} ParagraphTextsAppend(a: seq<string>, b: seq<string>)
    ensures ParagraphTexts(a + b) == ParagraphTexts(a) + ParagraphTexts(b)
    decreases |b|
  {
    if b == [] {
      assert a + b == a;
    } else {
      var b' := b[..|b| - 1];
      assert (a + b)[..|a + b| - 1] == a + b';
      ParagraphTextsAppend(a, b');
    }
  }

  /** Every paragraph text is non-blank and already stripped. */
  lemma {:induction false} ParagraphTextsStripped(lines: seq<string>)
    ensures forall k :: 0 <= k < |ParagraphTexts(lines)| ==>
      ParagraphTexts(lines)[k] != "" && Strip(ParagraphTexts(lines)[k]) == ParagraphTexts(lines)[k]
  {
    if lines != [] {
      var init := lines[..|lines| - 1];
      ParagraphTextsStripped(init);
      var last := lines[|lines| - 1];
      StripIdempotent(last);
    }
  }

  /** The positions of the non-blank lines. */
  function NonBlankPositions(lines: seq<string>): set<nat> {
    set i: nat | i < |lines| && !IsBlank(lines[i])
  }

  /** There is one paragraph per non-blank line, and blank lines contribute none. */
  lemma {:induction false} ParagraphCount(lines: seq<string>)
    ensures |ParagraphTexts(lines)| == |NonBlankPositions(lines)|
  {
    if lines == [] {
      assert NonBlankPositions(lines) == {};
    } else {
      var n := |lines| - 1;
      var init := lines[..n];
      ParagraphCount(init);
      NonBlankPositionsExtend(lines);
    }
  }

  lemma NonBlankPositionsExtend(lines: seq<string>)
    requires lines != []
    ensures var n := |lines| - 1;
      && n !in NonBlankPositions(lines[..n])
      && NonBlankPositions(lines) == NonBlankPositions(lines[..n]) + (if IsBlank(lines[n]) then {} else {n})
  {
    var n := |lines| - 1;
    var init := lines[..n];
    var all, before := NonBlankPositions(lines), NonBlankPositions(init);
    forall i: nat | i in all && i < n ensures i in before {
      assert init[i] == lines[i];
    }
    forall i: nat | i in before ensures i in all {
      assert init[i] == lines[i];
    }
  }

  /**
   * Lines that are already stripped and non-blank come back unchanged and in
   * order: joining them with line breaks and building the story gives one
   * paragraph per line, holding that line.
   */
  lemma StoryReproducesLines(lines: seq<string>)
    requires |lines| >= 1 && SeparatorFree(lines, '\n')
    requires forall k :: 0 <= k < |lines| ==> lines[k] != "" && Strip(lines[k]) == lines[k]
    ensures ParagraphTexts(Split(Join(lines, '\n'), '\n')) == lines
  {
    SplitJoin(lines, '\n');
    KeptLines(lines);
  }

  lemma {:induction false} KeptLines(lines: seq<string>)
    requires forall k :: 0 <= k < |lines| ==> lines[k] != "" && Strip(lines[k]) == lines[k]
    ensures ParagraphTexts(lines) == lines
  {
    if lines != [] {
      var init := lines[..|lines| - 1];
      KeptLines(init);
      assert init + [lines[|lines| - 1]] == lines;
    }
  }

  lemma ParagraphTextsSingle(line: string)
    ensures ParagraphTexts([line]) == if IsBlank(line) then [] else [Strip(line)]
  {
    assert [line][..0] == [];
  }

  /** Of five lines whose second and fourth are blank, the first, third and fifth make the paragraphs. */
  lemma FiveLines(a: string, b: string, c: string, d: string, e: string)
    requires !IsBlank(a) && IsBlank(b) && !IsBlank(c) && IsBlank(d) && !IsBlank(e)
    ensures ParagraphTexts([a, b, c, d, e]) == [Strip(a), Strip(c), Strip(e)]
  {
    var sa, sc, se := Strip(a), Strip(c), Strip(e);
    assert [a][..0] == [];
    assert ParagraphTexts([a]) == [sa];
    assert [a, b][..1] == [a];
    assert ParagraphTexts([a, b]) == [sa];
    assert [a, b, c][..2] == [a, b];
    assert ParagraphTexts([a, b, c]) == [sa, sc];
    assert [a, b, c, d][..3] == [a, b, c];
    assert ParagraphTexts([a, b, c, d]) == [sa, sc];
    assert [a, b, c, d, e][..4] == [a, b, c, d];
  }

  /** Of the lines "Alpha", "", "  Beta ", " \t", "Gamma", the three non-blank ones make the paragraphs, stripped and in order. */
  lemma ExampleParagraphs()
    ensures ParagraphTexts(["Alpha", "", "  Beta ", " \t", "Gamma"]) == ["Alpha", "Beta", "Gamma"]
  {
    StripUnpadded("Alpha");
    StripUnpadded("Gamma");
    StripPadded("  ", "Beta", " ");
    assert "  " + "Beta" + " " == "  Beta ";
    StripEmptyIff(" \t");
    StripEmptyIff("");
    FiveLines("Alpha", "", "  Beta ", " \t", "Gamma");
  }

  /** Three non-blank lines among two blank ones give three paragraphs, in order. */
  lemma ThreeLinesTwoBlanks()
    ensures ParagraphTexts(Split(Join(["Alpha", "", "  Beta ", " \t", "Gamma"], '\n'), '\n')) == ["Alpha", "Beta", "Gamma"]
  {
    var lines := ["Alpha", "", "  Beta ", " \t", "Gamma"];
    assert SeparatorFree(lines, '\n');
    SplitJoin(lines, '\n');
    ExampleParagraphs();
  }
}
