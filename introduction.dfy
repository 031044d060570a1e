/**
 * `extract_introduction_text`: the paragraphs of the "program introduction"
 * text blocks, each cleaned line by line, joined by blank lines.
 *
 * A page is given by what the traversal finds on it: its `div.section`
 * elements and, for the fallback pass, the `div.txt` (if any) of the parent of
 * each `div` that holds an image with the introduction alt text.
 */
module Introduction {
  import opened Wrappers
  import opened Text
  import opened Chunking
  import opened Page

  /** The heading text and the image alt text that mark the introduction. */
  const IntroMarker: string := "프로그램 소개"

  /** A text block that is present and holds at least one `p`. */
  predicate HasParagraph(txt: Option<TextBlock>) { txt.Some? && |txt.value| > 0 }

  /** A section of the first pass: its heading names the introduction and its text block has a `p`. */
  predicate IsIntroSection(s: Section) {
    s.heading.Some? && Contains(s.heading.value, IntroMarker) && HasParagraph(s.txt)
  }

  /** The text blocks the first pass collects, in section order. */
  function IntroSections(sections: seq<Section>): (r: seq<TextBlock>)
    ensures forall k :: 0 <= k < |r| ==> |r[k]| > 0
  {
    if sections == [] then []
    else
      var last := sections[|sections| - 1];
      IntroSections(sections[..|sections| - 1]) + if IsIntroSection(last) then [last.txt.value] else []
  }

  /** The text blocks the fallback pass collects, in document order. */
  function FallbackBlocks(candidates: seq<Option<TextBlock>>): (r: seq<TextBlock>)
    ensures forall k :: 0 <= k < |r| ==> |r[k]| > 0
  {
    if candidates == [] then []
    else
      var last := candidates[|candidates| - 1];
      FallbackBlocks(candidates[..|candidates| - 1]) + if HasParagraph(last) then [last.value] else []
  }

  /** The fallback pass runs only when the first pass found nothing. */
  function ChosenBlocks(sections: seq<Section>, candidates: seq<Option<TextBlock>>): seq<TextBlock> {
    var primary := IntroSections(sections);
    if primary != [] then primary else FallbackBlocks(candidates)
  }

  /** The non-blank lines of `lines`, each stripped. */
  function CleanLines(lines: seq<string>): (r: seq<string>)
    ensures forall k :: 0 <= k < |r| ==> r[k] != "" && Stripped(r[k])
    ensures forall k, c :: 0 <= k < |r| && c in r[k] ==> exists j :: 0 <= j < |lines| && c in lines[j]
    ensures |r| <= |lines|
  {
    if lines == [] then []
    else
      var line := Strip(lines[0]);
      var rest := CleanLines(lines[1..]);
      assert forall k, c :: 0 <= k < |rest| && c in rest[k] ==> exists j :: 0 <= j < |lines| && c in lines[j] by {
        forall k, c | 0 <= k < |rest| && c in rest[k] ensures exists j :: 0 <= j < |lines| && c in lines[j] {
          var j :| 0 <= j < |lines[1..]| && c in lines[1..][j];
          assert c in lines[j + 1];
        }
      }
      (if line != "" then [line] else []) + rest
  }

  /** A single line is kept, stripped, exactly when it is not blank. */
  lemma CleanLine(line: string)
    ensures CleanLines([line]) == if Strip(line) == "" then [] else [Strip(line)]
  {
    assert [line][1..] == [];
  }

  /** Cleaning works line by line: it distributes over concatenation, so order is kept. */
  lemma {:induction false} CleanLinesConcat(a: seq<string>, b: seq<string>)
    ensures CleanLines(a + b) == CleanLines(a) + CleanLines(b)
  {
    if a == [] {
      assert a + b == b;
    } else {
      assert (a + b)[0] == a[0] && (a + b)[1..] == a[1..] + b;
      CleanLinesConcat(a[1..], b);
    }
  }

  /** One paragraph: its non-blank lines, stripped, joined by `"\n"`. */
  function CleanParagraph(text: string): string {
    Join(CleanLines(SplitLines(text)), "\n")
  }

  /** The cleaned paragraphs of the chosen blocks, `None` when there are none. */
  function IntroductionOf(sections: seq<Section>, candidates: seq<Option<TextBlock>>): Option<string> {
    var paragraphs := Flatten(ChosenBlocks(sections, candidates));
    if paragraphs == [] then None
    else Some(Join(CleanAll(paragraphs), "\n\n"))
  }

  /** The cleaned form of each paragraph, in order. */
  function CleanAll(paragraphs: seq<string>): (r: seq<string>)
    ensures |r| == |paragraphs|
    ensures forall k :: 0 <= k < |r| ==> r[k] == CleanParagraph(paragraphs[k])
  {
    MapSeq(CleanParagraph, paragraphs)
  }

  /** The first pass over the sections. */
  method CollectIntroSections(sections: seq<Section>) returns (blocks: seq<TextBlock>)
    ensures blocks == IntroSections(sections)
  {
    blocks := [];
    var i := 0;
    while i < |sections|
      invariant 0 <= i <= |sections|
      invariant blocks == IntroSections(sections[..i])
    {
      var s := sections[i];
      if s.heading.Some? && Contains(s.heading.value, IntroMarker) {
        if s.txt.Some? && |s.txt.value| > 0 {
          blocks := blocks + [s.txt.value];
        }
      }
      assert sections[..i + 1][..i] == sections[..i];
      i := i + 1;
    }
    assert sections[..i] == sections;
  }

  /** The fallback pass over the text blocks found next to an introduction image. */
  method CollectFallback(candidates: seq<Option<TextBlock>>) returns (blocks: seq<TextBlock>)
    ensures blocks == FallbackBlocks(candidates)
  {
    blocks := [];
    var i := 0;
    while i < |candidates|
      invariant 0 <= i <= |candidates|
      invariant blocks == FallbackBlocks(candidates[..i])
    {
      var txt := candidates[i];
      if txt.Some? && |txt.value| > 0 {
        blocks := blocks + [txt.value];
      }
      assert candidates[..i + 1][..i] == candidates[..i];
      i := i + 1;
    }
    assert candidates[..i] == candidates;
  }

  /** Every `p` of every collected block, cleaned, in order. */
  method CleanBlocks(blocks: seq<TextBlock>) returns (allText: seq<string>)
    ensures allText == CleanAll(Flatten(blocks))
  {
    allText := [];
    var i := 0;
    while i < |blocks|
      invariant 0 <= i <= |blocks|
      invariant allText == CleanAll(Flatten(blocks[..i]))
    {
      allText := CleanBlock(allText, blocks[i]);
      assert blocks[..i + 1] == blocks[..i] + [blocks[i]];
      FlattenAppend(blocks[..i], blocks[i]);
      MapConcat(CleanParagraph, Flatten(blocks[..i]), blocks[i]);
      i := i + 1;
    }
    assert blocks[..i] == blocks;
  }

  /** The inner loop: the cleaned `p`s of one block appended to `allText`. */
  method CleanBlock(allText: seq<string>, ps: TextBlock) returns (r: seq<string>)
    ensures r == allText + CleanAll(ps)
  {
    r := allText;
    var j := 0;
    while j < |ps|
      invariant 0 <= j <= |ps|
      invariant r == allText + CleanAll(ps[..j])
    {
      r := r + [CleanParagraph(ps[j])];
      assert ps[..j + 1] == ps[..j] + [ps[j]];
      MapConcat(CleanParagraph, ps[..j], [ps[j]]);
      j := j + 1;
    }
    assert ps[..j] == ps;
  }

  method ExtractIntroduction(sections: seq<Section>, candidates: seq<Option<TextBlock>>) returns (r: Option<string>)
    ensures r == IntroductionOf(sections, candidates)
  {
    var blocks := CollectIntroSections(sections);
    if blocks == [] {
      blocks := CollectFallback(candidates);
    }
    var allText := CleanBlocks(blocks);
    if allText == [] {
      r := None;
    } else {
      r := Some(Join(allText, "\n\n"));
    }
  }

  /** No introduction exactly when neither pass collected a text block. */
  lemma {:induction false} NoIntroduction(sections: seq<Section>, candidates: seq<Option<TextBlock>>)
    ensures IntroductionOf(sections, candidates).None? <==>
      (forall k :: 0 <= k < |sections| ==> !IsIntroSection(sections[k]))
      && (forall k :: 0 <= k < |candidates| ==> !HasParagraph(candidates[k]))
  {
    IntroSectionsEmpty(sections);
    FallbackBlocksEmpty(candidates);
    var chosen := ChosenBlocks(sections, candidates);
    if chosen != [] {
      assert chosen == chosen[..1] + chosen[1..];
      FlattenConcat(chosen[..1], chosen[1..]);
      assert Flatten(chosen[..1]) == chosen[0];
    }
  }

  lemma {:induction false} IntroSectionsEmpty(sections: seq<Section>)
    ensures IntroSections(sections) == [] <==> forall k :: 0 <= k < |sections| ==> !IsIntroSection(sections[k])
  {
    if sections != [] {
      var init := sections[..|sections| - 1];
      IntroSectionsEmpty(init);
      assert forall k :: 0 <= k < |init| ==> init[k] == sections[k];
    }
  }

  lemma {:induction false} FallbackBlocksEmpty(candidates: seq<Option<TextBlock>>)
    ensures FallbackBlocks(candidates) == [] <==> forall k :: 0 <= k < |candidates| ==> !HasParagraph(candidates[k])
  {
    if candidates != [] {
      var init := candidates[..|candidates| - 1];
      FallbackBlocksEmpty(init);
      assert forall k :: 0 <= k < |init| ==> init[k] == candidates[k];
    }
  }

  /** The cleaned lines carry no line break, so the `"\n"` join can be split back into them. */
  lemma CleanParagraphLines(text: string)
    ensures var lines := CleanLines(SplitLines(text));
      lines != [] ==> Split(CleanParagraph(text), '\n') == lines
    ensures forall k :: 0 <= k < |CleanLines(SplitLines(text))| ==> '\n' !in CleanLines(SplitLines(text))[k]
  {
    var pieces := SplitLines(text);
    var lines := CleanLines(pieces);
    assert IsLineBreak('\n');
    if lines != [] {
      SplitJoin(lines, '\n');
    }
  }

  /** A paragraph cleans to `""` exactly when it is all whitespace. */
  lemma BlankParagraph(text: string)
    ensures CleanParagraph(text) == "" <==> AllSpace(text)
  {
    var pieces := SplitLines(text);
    var lines := CleanLines(pieces);
    if AllSpace(text) {
      CleanLinesOfSpace(pieces, text);
    } else {
      var i :| 0 <= i < |text| && !IsSpace(text[i]);
      LineBreakIsSpace(text[i]);
      var k := SplitLinesCover(text, i);
      CleanLinesKeep(pieces, k, text[i]);
      assert lines != [];
      assert lines[0] != "";
      JoinFirst(lines, "\n");
    }
  }

  /** Every character of `text` that is not a line break lies in one of its lines. */
  lemma {:induction false} SplitLinesCover(text: string, i: nat) returns (k: nat)
    requires i < |text| && !IsLineBreak(text[i])
    ensures k < |SplitLines(text)| && text[i] in SplitLines(text)[k]
    decreases |text|
  {
    var b := FirstLineBreak(text);
    if b == |text| {
      k := 0;
      assert SplitLines(text) == [text];
    } else if i < b {
      k := 0;
      SplitLinesCons(text);
      assert text[..b][i] == text[i];
    } else {
      assert i != b;
      var rest := text[b + 1..];
      SplitLinesCons(text);
      assert rest[i - b - 1] == text[i];
      var k' := SplitLinesCover(rest, i - b - 1);
      k := k' + 1;
    }
  }

  lemma SplitLinesCons(text: string)
    requires FirstLineBreak(text) < |text|
    ensures var b := FirstLineBreak(text);
      SplitLines(text) == [text[..b]] + SplitLines(text[b + 1..])
  {}

  /** A character that is not whitespace survives cleaning. */
  lemma {:induction false} CleanLinesKeep(lines: seq<string>, k: nat, c: char)
    requires k < |lines| && c in lines[k] && !IsSpace(c)
    ensures CleanLines(lines) != []
  {
    if k == 0 {
      assert !AllSpace(lines[0]);
    } else {
      CleanLinesKeep(lines[1..], k - 1, c);
    }
  }

  lemma {:induction false} CleanLinesOfSpace(lines: seq<string>, text: string)
    requires forall k, c :: 0 <= k < |lines| && c in lines[k] ==> c in text
    requires AllSpace(text)
    ensures CleanLines(lines) == []
  {
    if lines != [] {
      assert AllSpace(lines[0]) by {
        forall i | 0 <= i < |lines[0]| ensures IsSpace(lines[0][i]) {
          assert lines[0][i] in text;
        }
      }
      CleanLinesOfSpace(lines[1..], text);
    }
  }

  lemma JoinFirst(parts: seq<string>, sep: string)
    requires parts != [] && parts[0] != ""
    ensures Join(parts, sep) != ""
  {}
}
