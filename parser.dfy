/**
  `parseBlocksFromHtml` of the question-bank page: walks the body's child elements, opens a block
  at each "N BLOK" header, and turns list items and other elements into questions of the current
  block. A numbered paragraph is split into several questions, an image-only paragraph is attached
  to the previous question, and the embedded images keep the size their tag declares.
 */
module Parser {
  import opened Common
  import opened Dom
  import opened Records
  import opened Segmenter
  import opened Blocks

  /** One `<li>` of a list: skipped when empty, one question when it has images, else its segments. */
  function ItemStep(blocks: seq<Block>, li: Node): (r: Result<seq<Block>, ParseError>)
    requires blocks != []
    ensures r.Ok? ==> OnlyCurrentChanged(blocks, r.value)
  {
    var text := ElementText(li);
    match ImagesOfElement(li, true)
    case Err(e) => Err(e)
    case Ok(images) =>
      if text == "" && images == [] then Ok(blocks)
      else if images != [] then Ok(AddQuestion(blocks, Question(text, images)))
      else Ok(AddTextQuestions(blocks, SplitNumbered(text)))
  }

  /** `liElements.forEach(...)`: the items in order, the first failing image aborting the parse. */
  function ItemsFrom(blocks: seq<Block>, lis: seq<Node>): (r: Result<seq<Block>, ParseError>)
    requires blocks != []
    ensures r.Ok? ==> OnlyCurrentChanged(blocks, r.value)
    decreases |lis|
  {
    if lis == [] then Ok(blocks)
    else
      match ItemStep(blocks, lis[0])
      case Err(e) => Err(e)
      case Ok(next) => ItemsFrom(next, lis[1..])
  }

  /** Where a non-list element's trimmed text and decoded images go. */
  function PlaceContent(blocks: seq<Block>, text: string, images: seq<QuestionImage>): seq<Block>
    requires blocks != []
  {
    if text == "" && images != [] then
      if Current(blocks).questions != [] then AttachImages(blocks, images)
      else AddQuestion(blocks, Question("", images))
    else if images != [] then AddQuestion(blocks, Question(text, images))
    else if text != "" then AddTextQuestions(blocks, SplitNumbered(text))
    else blocks
  }

  /** One child element of the body. */
  function ElementStep(blocks: seq<Block>, el: Node): (r: Result<seq<Block>, ParseError>)
    ensures IsBlockHeader(ElementText(el)) ==> r == Ok(blocks + [Block(ElementText(el), [])])
    ensures !IsBlockHeader(ElementText(el)) && blocks == [] ==> r == Ok([])
    ensures !IsBlockHeader(ElementText(el)) && blocks != [] && r.Ok? ==> OnlyCurrentChanged(blocks, r.value)
  {
    var text := ElementText(el);
    if IsBlockHeader(text) then Ok(blocks + [Block(text, [])])
    else if blocks == [] then Ok(blocks)
    else if IsList(el) then ItemsFrom(blocks, ListItems(el))
    else
      match ImagesOfElement(el, true)
      case Err(e) => Err(e)
      case Ok(images) => Ok(PlaceContent(blocks, text, images))
  }

  /** The whole parse of a document whose body has the child nodes `body`. */
  function ParseBlocks(body: seq<Node>): Result<seq<Block>, ParseError> {
    match ElementsFrom(ElementStep, [], ElementChildren(body))
    case Err(e) => Err(e)
    case Ok(blocks) => Ok(NonEmptyBlocks(blocks))
  }

  /** The `liElements.forEach` loop. */
  method AddListItems(blocks: seq<Block>, lis: seq<Node>) returns (r: Result<seq<Block>, ParseError>)
    requires blocks != []
    ensures r == ItemsFrom(blocks, lis)
  {
    var cur := blocks;
    for i := 0 to |lis|
      invariant |cur| == |blocks|
      invariant ItemsFrom(cur, lis[i..]) == ItemsFrom(blocks, lis)
    {
      assert lis[i..][1..] == lis[i + 1..];
      var li := lis[i];
      var text := ElementText(li);
      var images := CollectImages(QueryImgs(li), true);
      if images.Err? {
        return Err(images.error);
      }
      if text == "" && images.value == [] {
        continue;
      }
      if images.value != [] {
        cur := AddQuestion(cur, Question(text, images.value));
      } else {
        var parts := SplitNumberedQuestions(text);
        cur := AddTextQuestions(cur, parts);
      }
    }
    assert lis[|lis|..] == [];
    return Ok(cur);
  }

  /** The body of the element loop for one element. */
  method AddElement(blocks: seq<Block>, el: Node) returns (r: Result<seq<Block>, ParseError>)
    ensures r == ElementStep(blocks, el)
  {
    var text := ElementText(el);
    if IsBlockHeader(text) {
      return Ok(blocks + [Block(text, [])]);
    }
    if blocks == [] {
      return Ok(blocks);
    }
    if IsList(el) {
      r := AddListItems(blocks, ListItems(el));
      return;
    }
    var images := CollectImages(QueryImgs(el), true);
    if images.Err? {
      return Err(images.error);
    }
    var imgs := images.value;
    if text == "" && imgs != [] {
      if Current(blocks).questions != [] {
        return Ok(AttachImages(blocks, imgs));
      }
      return Ok(AddQuestion(blocks, Question("", imgs)));
    }
    if text != "" && imgs != [] {
      return Ok(AddQuestion(blocks, Question(text, imgs)));
    }
    if text != "" {
      var parts := SplitNumberedQuestions(text);
      return Ok(AddTextQuestions(blocks, parts));
    }
    return Ok(blocks);
  }

  /** `parseBlocksFromHtml`: the loop over the body's child elements, then the filter. */
  method ParseBlocksFromHtml(body: seq<Node>) returns (r: Result<seq<Block>, ParseError>)
    ensures r == ParseBlocks(body)
  {
    var els := ElementChildren(body);
    var blocks: seq<Block> := [];
    for i := 0 to |els|
      invariant ElementsFrom(ElementStep, blocks, els[i..]) == ElementsFrom(ElementStep, [], els)
    {
      assert els[i..][1..] == els[i + 1..];
      var step := AddElement(blocks, els[i]);
      if step.Err? {
        return Err(step.error);
      }
      blocks := step.value;
    }
    assert els[|els|..] == [];
    return Ok(NonEmptyBlocks(blocks));
  }

  // Properties of the parse.

  /** Every question has content and every block a header's name. */
  predicate Shaped(blocks: seq<Block>) {
    AllHaveContent(blocks) && HeadersNamed(blocks)
  }

  /** A change confined to the current block keeps the shape when that block's questions all have content. */
  lemma CurrentChangeShaped(before: seq<Block>, after: seq<Block>)
    requires Shaped(before) && OnlyCurrentChanged(before, after)
    requires forall q | q in Current(after).questions :: HasContent(q)
    ensures Shaped(after)
  {
    forall b | b in after
      ensures IsBlockHeader(b.name) && forall q | q in b.questions :: HasContent(q)
    {
      var k :| 0 <= k < |after| && after[k] == b;
      if k < |after| - 1 {
        assert b == before[..|before| - 1][k];
        assert b in before;
      } else {
        assert b.name == Current(before).name;
        assert Current(before) in before;
      }
    }
  }

  /** Segments of a text are never empty, so the questions made from them all have content. */
  lemma SegmentsHaveContent(text: string)
    ensures forall q | q in TextQuestions(SplitNumbered(text)) :: HasContent(q)
  {
    var parts := SplitNumbered(text);
    forall q | q in TextQuestions(parts)
      ensures HasContent(q)
    {
      var k :| 0 <= k < |parts| && TextQuestions(parts)[k] == q;
      assert parts[k] != "";
    }
  }

  lemma ItemStepShaped(blocks: seq<Block>, li: Node)
    requires blocks != [] && Shaped(blocks)
    ensures ItemStep(blocks, li).Ok? ==> Shaped(ItemStep(blocks, li).value)
  {
    if ItemStep(blocks, li).Ok? {
      var after := ItemStep(blocks, li).value;
      assert Current(blocks) in blocks;
      SegmentsHaveContent(ElementText(li));
      CurrentChangeShaped(blocks, after);
    }
  }

  lemma {:induction false} ItemsFromShaped(blocks: seq<Block>, lis: seq<Node>)
    requires blocks != [] && Shaped(blocks)
    ensures ItemsFrom(blocks, lis).Ok? ==> Shaped(ItemsFrom(blocks, lis).value)
    decreases |lis|
  {
    if lis != [] {
      ItemStepShaped(blocks, lis[0]);
      if ItemStep(blocks, lis[0]).Ok? {
        ItemsFromShaped(ItemStep(blocks, lis[0]).value, lis[1..]);
      }
    }
  }

  lemma PlaceContentShaped(blocks: seq<Block>, text: string, images: seq<QuestionImage>)
    requires blocks != [] && Shaped(blocks)
    ensures Shaped(PlaceContent(blocks, text, images))
  {
    var after := PlaceContent(blocks, text, images);
    assert Current(blocks) in blocks;
    if text == "" && images != [] && Current(blocks).questions != [] {
      var qs := Current(blocks).questions;
      assert qs[|qs| - 1] in qs;
      forall q | q in Current(after).questions
        ensures HasContent(q)
      {
        var j :| 0 <= j < |qs| && Current(after).questions[j] == q;
        if j < |qs| - 1 {
          assert q == qs[..|qs| - 1][j];
          assert q in qs;
        }
      }
    } else {
      SegmentsHaveContent(text);
    }
    CurrentChangeShaped(blocks, after);
  }

  lemma ElementStepShaped(blocks: seq<Block>, el: Node)
    requires Shaped(blocks)
    ensures ElementStep(blocks, el).Ok? ==> Shaped(ElementStep(blocks, el).value)
  {
    var text := ElementText(el);
    if IsBlockHeader(text) {
    } else if blocks != [] {
      if IsList(el) {
        ItemsFromShaped(blocks, ListItems(el));
      } else if ImagesOfElement(el, true).Ok? {
        PlaceContentShaped(blocks, text, ImagesOfElement(el, true).value);
      }
    }
  }

  /** Every element keeps the blocks shaped. */
  lemma StepKeepsShaped()
    ensures Keeps(ElementStep, Shaped)
  {
    forall blocks, el | Shaped(blocks) && ElementStep(blocks, el).Ok?
      ensures Shaped(ElementStep(blocks, el).value)
    {
      ElementStepShaped(blocks, el);
    }
  }

  /**
    A successful parse yields only blocks with questions, each named after a "N BLOK" header, and
    every question in them has text or an image.
   */
  lemma ParsedBlocksWellFormed(body: seq<Node>)
    ensures ParseBlocks(body).Ok? ==>
      var blocks := ParseBlocks(body).value;
      AllBlocksNonEmpty(blocks) && HeadersNamed(blocks) && AllHaveContent(blocks)
  {
    var els := ElementChildren(body);
    StepKeepsShaped();
    FoldKeeps(ElementStep, Shaped, [], els);
    if ElementsFrom(ElementStep, [], els).Ok? {
      var all := ElementsFrom(ElementStep, [], els).value;
      var kept := NonEmptyBlocks(all);
      forall b | b in kept
        ensures IsBlockHeader(b.name) && forall q | q in b.questions :: HasContent(q)
      {
        var k :| 0 <= k < |kept| && kept[k] == b;
        assert b in all;
      }
    }
  }

  /** One element adds its text to the names when it is a header, and no name otherwise. */
  lemma StepNames(blocks: seq<Block>, el: Node)
    ensures ElementStep(blocks, el).Ok? ==>
      Names(ElementStep(blocks, el).value) == Names(blocks) + HeaderTexts([el])
  {
    var text := ElementText(el);
    var r := ElementStep(blocks, el);
    assert HeaderTexts([el]) == (if IsBlockHeader(text) then [text] else []);
    if r.Ok? {
      if IsBlockHeader(text) {
        NamesConcat(blocks, [Block(text, [])]);
      } else if blocks != [] {
        NamesKept(blocks, r.value);
      }
    }
  }

  lemma StepsNameHeaders()
    ensures NamesFromHeaders(ElementStep)
  {
    forall blocks, el
      ensures ElementStep(blocks, el).Ok? ==>
        Names(ElementStep(blocks, el).value) == Names(blocks) + HeaderTexts([el])
    {
      StepNames(blocks, el);
    }
  }

  /** The blocks are opened in document order, one per header element, under the header's text. */
  lemma BlockNamesAreHeaders(els: seq<Node>)
    ensures ElementsFrom(ElementStep, [], els).Ok? ==>
      Names(ElementsFrom(ElementStep, [], els).value) == HeaderTexts(els)
  {
    StepsNameHeaders();
    FoldNamesHeaders(ElementStep, [], els);
  }

  /**
    The blocks of a parse are named, in document order, after exactly those header elements whose
    block received at least one question: every such header is there, and no other name.
   */
  lemma ParsedNamesAreFilledHeaders(body: seq<Node>)
    ensures ParseBlocks(body).Ok? ==>
      var all := ElementsFrom(ElementStep, [], ElementChildren(body)).value;
      Names(all) == HeaderTexts(ElementChildren(body))
      && Names(ParseBlocks(body).value) == Masked(Names(all), QuestionCounts(all))
  {
    StepsNameHeaders();
    FilledHeaderNames(ElementStep, ElementChildren(body));
  }

  /**
    Whatever precedes the first header is ignored: not even its images are decoded, so a bad
    payload there cannot abort the parse.
   */
  lemma PreambleIgnored(pre: seq<Node>, rest: seq<Node>)
    requires HeaderTexts(pre) == []
    ensures ElementsFrom(ElementStep, [], pre + rest) == ElementsFrom(ElementStep, [], rest)
  {
    NoHeaderTexts(pre);
    forall k | 0 <= k < |pre|
      ensures ElementStep([], pre[k]) == Ok([])
    {
    }
    FoldSkips(ElementStep, pre, rest);
  }

  /**
    A paragraph with both text and an image becomes exactly one question holding the whole text,
    numbered lines and all; nothing else changes.
   */
  lemma TextWithImageIsOneQuestion(blocks: seq<Block>, el: Node)
    requires blocks != [] && !IsBlockHeader(ElementText(el)) && !IsList(el)
    requires ElementText(el) != ""
    requires ImagesOfElement(el, true).Ok? && ImagesOfElement(el, true).value != []
    ensures ElementStep(blocks, el).Ok?
    ensures var r := ElementStep(blocks, el).value;
      OnlyCurrentChanged(blocks, r)
      && Current(r).questions
         == Current(blocks).questions + [Question(ElementText(el), ImagesOfElement(el, true).value)]
  {
  }

  /**
    A paragraph with text and no decodable image becomes the questions its numbered lines
    delimit, none of them carrying an image.
   */
  lemma TextOnlyIsSegmented(blocks: seq<Block>, el: Node)
    requires blocks != [] && !IsBlockHeader(ElementText(el)) && !IsList(el)
    requires ElementText(el) != ""
    requires ImagesOfElement(el, true) == Ok([])
    ensures ElementStep(blocks, el).Ok?
    ensures var r := ElementStep(blocks, el).value;
      OnlyCurrentChanged(blocks, r)
      && Current(r).questions == Current(blocks).questions + TextQuestions(SplitNumbered(ElementText(el)))
  {
  }

  /**
    An image-only paragraph after a question adds its images to that question: no question is
    added, and the previous one keeps its text.
   */
  lemma ImageOnlyAttaches(blocks: seq<Block>, el: Node)
    requires blocks != [] && Current(blocks).questions != []
    requires !IsList(el) && ElementText(el) == ""
    requires ImagesOfElement(el, true).Ok? && ImagesOfElement(el, true).value != []
    ensures ElementStep(blocks, el).Ok?
    ensures var r := ElementStep(blocks, el).value;
      var qs, qs' := Current(blocks).questions, Current(r).questions;
      OnlyCurrentChanged(blocks, r) && |qs'| == |qs| && qs'[..|qs| - 1] == qs[..|qs| - 1]
      && qs'[|qs| - 1].text == qs[|qs| - 1].text
      && qs'[|qs| - 1].images == qs[|qs| - 1].images + ImagesOfElement(el, true).value
  {
  }

  /**
    The header test comes first: an element whose trimmed text is a header opens a new, empty block
    under that text, even when it is a list or holds images.
   */
  lemma HeaderOpensBlock(blocks: seq<Block>, el: Node)
    requires IsBlockHeader(ElementText(el))
    ensures ElementStep(blocks, el) == Ok(blocks + [Block(ElementText(el), [])])
  {
  }

  /** An image-only paragraph in a block with no question yet becomes a question with no text. */
  lemma ImageOnlyFirstQuestion(blocks: seq<Block>, el: Node)
    requires blocks != [] && Current(blocks).questions == []
    requires !IsList(el) && ElementText(el) == ""
    requires ImagesOfElement(el, true).Ok? && ImagesOfElement(el, true).value != []
    ensures ElementStep(blocks, el) == Ok(AddQuestion(blocks, Question("", ImagesOfElement(el, true).value)))
  {
  }

  /**
    The questions one `<li>` contributes: none when it has neither text nor a decoded image, one
    holding its whole text when it has images, and otherwise one text-only question per segment.
   */
  function ItemQuestions(li: Node): seq<Question> {
    var text := ElementText(li);
    match ImagesOfElement(li, true)
    case Err(_) => []
    case Ok(images) =>
      if text == "" && images == [] then []
      else if images != [] then [Question(text, images)]
      else TextQuestions(SplitNumbered(text))
  }

  /** The questions of the items, in order. */
  function ItemsQuestions(lis: seq<Node>): seq<Question> {
    if lis == [] then [] else ItemQuestions(lis[0]) + ItemsQuestions(lis[1..])
  }

  /**
    A list appends, after the questions the current block already had, the questions of its items
    in order, and changes nothing else.
   */
  lemma {:induction false} ItemsAppendQuestions(blocks: seq<Block>, lis: seq<Node>)
    requires blocks != []
    ensures ItemsFrom(blocks, lis).Ok? ==>
      var r := ItemsFrom(blocks, lis).value;
      OnlyCurrentChanged(blocks, r) && Current(r).questions == Current(blocks).questions + ItemsQuestions(lis)
    decreases |lis|
  {
    if lis == [] {
      assert Current(blocks).questions + [] == Current(blocks).questions;
    } else if ItemStep(blocks, lis[0]).Ok? {
      var next := ItemStep(blocks, lis[0]).value;
      assert Current(next).questions == Current(blocks).questions + ItemQuestions(lis[0]);
      ItemsAppendQuestions(next, lis[1..]);
      AppendAssoc(Current(blocks).questions, ItemQuestions(lis[0]), ItemsQuestions(lis[1..]));
    }
  }

  /** A list item with text and no decodable image becomes the questions its numbered lines delimit. */
  lemma ItemTextOnlyIsSegmented(blocks: seq<Block>, li: Node)
    requires blocks != [] && ElementText(li) != "" && ImagesOfElement(li, true) == Ok([])
    ensures ItemStep(blocks, li) == Ok(AddTextQuestions(blocks, SplitNumbered(ElementText(li))))
  {
  }

  /** A list item with neither text nor a decodable image is skipped. */
  lemma BlankItemSkipped(blocks: seq<Block>, li: Node)
    requires blocks != [] && ElementText(li) == "" && ImagesOfElement(li, true) == Ok([])
    ensures ItemStep(blocks, li) == Ok(blocks)
  {
  }

  /** A list item with a decodable image is one question with the item's whole text, never split. */
  lemma ItemWithImagesIsOneQuestion(blocks: seq<Block>, li: Node)
    requires blocks != []
    requires ImagesOfElement(li, true).Ok? && ImagesOfElement(li, true).value != []
    ensures ItemStep(blocks, li) == Ok(AddQuestion(blocks, Question(ElementText(li), ImagesOfElement(li, true).value)))
  {
  }
}
