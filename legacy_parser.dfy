/**
  `parseBlocksFromHtml` of the file-reading page, the earlier version of the parser: every
  non-empty list item and every other non-empty element becomes exactly one question of the
  current block, with its whole text and the images of its `<img>` tags, unsized. An element counts
  as empty only when it has neither text nor `<img>` tags, so an element whose tags are not data
  URLs still yields a question, with no text and no image.
 */
module LegacyParser {
  import opened Common
  import opened Dom
  import opened Records
  import opened Blocks

  /** An `<li>` or other element with neither text nor an `<img>` tag is skipped. */
  predicate IsBlank(el: Node) {
    ElementText(el) == "" && QueryImgs(el) == []
  }

  /** One `<li>`, or one non-list element: skipped when blank, otherwise one question. */
  function ContentStep(blocks: seq<Block>, el: Node): (r: Result<seq<Block>, ParseError>)
    requires blocks != []
    ensures r.Ok? ==> OnlyCurrentChanged(blocks, r.value)
  {
    if IsBlank(el) then Ok(blocks)
    else
      match ImagesOfElement(el, false)
      case Err(e) => Err(e)
      case Ok(images) => Ok(AddQuestion(blocks, Question(ElementText(el), images)))
  }

  /** `liElements.forEach(...)`. */
  function ItemsFrom(blocks: seq<Block>, lis: seq<Node>): (r: Result<seq<Block>, ParseError>)
    requires blocks != []
    ensures r.Ok? ==> OnlyCurrentChanged(blocks, r.value)
    decreases |lis|
  {
    if lis == [] then Ok(blocks)
    else
      match ContentStep(blocks, lis[0])
      case Err(e) => Err(e)
      case Ok(next) => ItemsFrom(next, lis[1..])
  }

  /** One child element of the body. */
  function ElementStep(blocks: seq<Block>, el: Node): (r: Result<seq<Block>, ParseError>)
    ensures IsBlockHeader(ElementText(el)) ==> r == Ok(blocks + [Block(ElementText(el), [])])
    ensures !IsBlockHeader(ElementText(el)) && blocks == [] ==> r == Ok([])
    ensures !IsBlockHeader(ElementText(el)) && blocks != [] && r.Ok? ==> OnlyCurrentChanged(blocks, r.value)
  {
    var text := ElementText(el);
    if IsBlockHeader(text) then Ok(blocks + [Block(text, [])])
    else if blocks == [] then Ok(blocks)
    else if IsList(el) then ItemsFrom(blocks, ListItems(el))
    else ContentStep(blocks, el)
  }

  /** The whole parse of a document whose body has the child nodes `body`. */
  function ParseBlocks(body: seq<Node>): Result<seq<Block>, ParseError> {
    match ElementsFrom(ElementStep, [], ElementChildren(body))
    case Err(e) => Err(e)
    case Ok(blocks) => Ok(NonEmptyBlocks(blocks))
  }

  /** The skip test, the `imgEls.forEach` loop and the push, for one `<li>` or element. */
  method AddContent(blocks: seq<Block>, el: Node) returns (r: Result<seq<Block>, ParseError>)
    requires blocks != []
    ensures r == ContentStep(blocks, el)
  {
    var text := ElementText(el);
    var imgEls := QueryImgs(el);
    if text == "" && imgEls == [] {
      return Ok(blocks);
    }
    var images := CollectImages(imgEls, false);
    if images.Err? {
      return Err(images.error);
    }
    return Ok(AddQuestion(blocks, Question(text, images.value)));
  }

  method AddListItems(blocks: seq<Block>, lis: seq<Node>) returns (r: Result<seq<Block>, ParseError>)
    requires blocks != []
    ensures r == ItemsFrom(blocks, lis)
  {
    var cur := blocks;
    for i := 0 to |lis|
      invariant |cur| == |blocks|
      invariant ItemsFrom(cur, lis[i..]) == ItemsFrom(blocks, lis)
    {
      assert lis[i..][1..] == lis[i + 1..];
      var step := AddContent(cur, lis[i]);
      if step.Err? {
        return Err(step.error);
      }
      cur := step.value;
    }
    assert lis[|lis|..] == [];
    return Ok(cur);
  }

  /** `parseBlocksFromHtml`: the loop over the body's child elements, then the filter. */
  method ParseBlocksFromHtml(body: seq<Node>) returns (r: Result<seq<Block>, ParseError>)
    ensures r == ParseBlocks(body)
  {
    var els := ElementChildren(body);
    var blocks: seq<Block> := [];
    for i := 0 to |els|
      invariant ElementsFrom(ElementStep, blocks, els[i..]) == ElementsFrom(ElementStep, [], els)
    {
      assert els[i..][1..] == els[i + 1..];
      var el := els[i];
      var text := ElementText(el);
      if IsBlockHeader(text) {
        blocks := blocks + [Block(text, [])];
        continue;
      }
      if blocks == [] {
        continue;
      }
      var step;
      if IsList(el) {
        step := AddListItems(blocks, ListItems(el));
      } else {
        step := AddContent(blocks, el);
      }
      if step.Err? {
        return Err(step.error);
      }
      blocks := step.value;
    }
    assert els[|els|..] == [];
    return Ok(NonEmptyBlocks(blocks));
  }

  // Properties of the parse.

  /** The question an item or element contributes: none when it is blank, else its whole text and its images. */
  function KeptQuestion(el: Node): seq<Question> {
    if IsBlank(el) then []
    else
      match ImagesOfElement(el, false)
      case Err(_) => []
      case Ok(images) => [Question(ElementText(el), images)]
  }

  /** The questions of the items that are not blank, in order. */
  function KeptQuestions(lis: seq<Node>): seq<Question> {
    if lis == [] then [] else KeptQuestion(lis[0]) + KeptQuestions(lis[1..])
  }

  /** One item or element appends the question it contributes, and nothing else. */
  lemma ContentStepAppends(blocks: seq<Block>, el: Node)
    requires blocks != []
    ensures ContentStep(blocks, el).Ok? ==>
      Current(ContentStep(blocks, el).value).questions == Current(blocks).questions + KeptQuestion(el)
  {
  }

  /**
    A list appends, after the questions the block already had, one question per item that is not
    blank, holding that item's whole text and its images, in order; the other blocks do not change.
   */
  lemma {:induction false} OneQuestionPerItem(blocks: seq<Block>, lis: seq<Node>)
    requires blocks != []
    ensures ItemsFrom(blocks, lis).Ok? ==>
      var r := ItemsFrom(blocks, lis).value;
      OnlyCurrentChanged(blocks, r) && Current(r).questions == Current(blocks).questions + KeptQuestions(lis)
    decreases |lis|
  {
    if lis == [] {
      assert Current(blocks).questions + [] == Current(blocks).questions;
    } else if ContentStep(blocks, lis[0]).Ok? {
      var next := ContentStep(blocks, lis[0]).value;
      ContentStepAppends(blocks, lis[0]);
      OneQuestionPerItem(next, lis[1..]);
      if ItemsFrom(next, lis[1..]).Ok? {
        var r := ItemsFrom(next, lis[1..]).value;
        AppendAssoc(Current(blocks).questions, KeptQuestion(lis[0]), KeptQuestions(lis[1..]));
      }
    }
  }

  /** `after` extends `before`: same names, and each old block's questions are a prefix of the new ones. */
  predicate Extends(before: seq<Block>, after: seq<Block>) {
    |before| <= |after|
    && forall k | 0 <= k < |before| ::
         after[k].name == before[k].name && before[k].questions <= after[k].questions
  }

  lemma ExtendsTransitive(a: seq<Block>, b: seq<Block>, c: seq<Block>)
    requires Extends(a, b) && Extends(b, c)
    ensures Extends(a, c)
  {
    forall k | 0 <= k < |a|
      ensures c[k].name == a[k].name && a[k].questions <= c[k].questions
    {
      assert a[k].questions <= b[k].questions <= c[k].questions;
    }
  }

  /** A change confined to the current block that only appends questions extends the blocks. */
  lemma CurrentAppendExtends(before: seq<Block>, after: seq<Block>)
    requires OnlyCurrentChanged(before, after)
    requires Current(before).questions <= Current(after).questions
    ensures Extends(before, after)
  {
    forall k | 0 <= k < |before| - 1
      ensures after[k] == before[k]
    {
      assert after[k] == after[..|after| - 1][k];
    }
  }

  lemma ElementStepExtends(blocks: seq<Block>, el: Node)
    ensures ElementStep(blocks, el).Ok? ==> Extends(blocks, ElementStep(blocks, el).value)
  {
    var text := ElementText(el);
    if ElementStep(blocks, el).Ok? {
      var r := ElementStep(blocks, el).value;
      if IsBlockHeader(text) {
        assert forall k | 0 <= k < |blocks| :: r[k] == blocks[k];
      } else if blocks == [] {
      } else if IsList(el) {
        OneQuestionPerItem(blocks, ListItems(el));
        CurrentAppendExtends(blocks, r);
      } else {
        ContentStepAppends(blocks, el);
        CurrentAppendExtends(blocks, r);
      }
    }
  }

  /**
    The parser only appends: a question once pushed is never changed or removed, and a block once
    opened keeps its name and its questions.
   */
  lemma NeverRewrites(blocks: seq<Block>, els: seq<Node>)
    ensures ElementsFrom(ElementStep, blocks, els).Ok? ==>
      Extends(blocks, ElementsFrom(ElementStep, blocks, els).value)
  {
    var inv := (b: seq<Block>) => Extends(blocks, b);
    forall b, el | inv(b) && ElementStep(b, el).Ok?
      ensures inv(ElementStep(b, el).value)
    {
      ElementStepExtends(b, el);
      ExtendsTransitive(blocks, b, ElementStep(b, el).value);
    }
    assert inv(blocks) by {
      forall k | 0 <= k < |blocks| ensures blocks[k].questions <= blocks[k].questions { }
    }
    FoldKeeps(ElementStep, inv, blocks, els);
  }

  /** Every element keeps the blocks named after headers. */
  lemma StepKeepsNamed()
    ensures Keeps(ElementStep, HeadersNamed)
  {
    forall blocks, el | HeadersNamed(blocks) && ElementStep(blocks, el).Ok?
      ensures HeadersNamed(ElementStep(blocks, el).value)
    {
      if !IsBlockHeader(ElementText(el)) && blocks != [] {
        CurrentChangeNamed(blocks, ElementStep(blocks, el).value);
      }
    }
  }

  /** A successful parse yields only blocks with questions, each named after a "N BLOK" header. */
  lemma ParsedBlocksWellFormed(body: seq<Node>)
    ensures ParseBlocks(body).Ok? ==>
      AllBlocksNonEmpty(ParseBlocks(body).value) && HeadersNamed(ParseBlocks(body).value)
  {
    var els := ElementChildren(body);
    StepKeepsNamed();
    FoldKeeps(ElementStep, HeadersNamed, [], els);
    if ElementsFrom(ElementStep, [], els).Ok? {
      NonEmptyBlocksNamed(ElementsFrom(ElementStep, [], els).value);
    }
  }

  /** One element adds its text to the block names when it is a header, and no name otherwise. */
  lemma StepNames(blocks: seq<Block>, el: Node)
    ensures ElementStep(blocks, el).Ok? ==>
      Names(ElementStep(blocks, el).value) == Names(blocks) + HeaderTexts([el])
  {
    var text := ElementText(el);
    var r := ElementStep(blocks, el);
    assert HeaderTexts([el]) == (if IsBlockHeader(text) then [text] else []);
    if r.Ok? {
      if IsBlockHeader(text) {
        NamesConcat(blocks, [Block(text, [])]);
      } else if blocks != [] {
        NamesKept(blocks, r.value);
      }
    }
  }

  /**
    The blocks of a parse are named, in document order, after exactly those header elements whose
    block received at least one question: every such header is there, and no other name.
   */
  lemma ParsedNamesAreFilledHeaders(body: seq<Node>)
    ensures ParseBlocks(body).Ok? ==>
      var all := ElementsFrom(ElementStep, [], ElementChildren(body)).value;
      Names(all) == HeaderTexts(ElementChildren(body))
      && Names(ParseBlocks(body).value) == Masked(Names(all), QuestionCounts(all))
  {
    forall blocks, el
      ensures ElementStep(blocks, el).Ok? ==>
        Names(ElementStep(blocks, el).value) == Names(blocks) + HeaderTexts([el])
    {
      StepNames(blocks, el);
    }
    FilledHeaderNames(ElementStep, ElementChildren(body));
  }

  /**
    Unlike the question-bank page, an element whose only content is `<img>` tags that are not data
    URLs is not skipped: it becomes a question with neither text nor images.
   */
  lemma ForeignImagesGiveBlankQuestion(blocks: seq<Block>, el: Node)
    requires blocks != [] && !IsList(el) && ElementText(el) == ""
    requires QueryImgs(el) != []
    requires forall k | 0 <= k < |QueryImgs(el)| :: NotEmbedded(QueryImgs(el)[k])
    ensures ElementStep(blocks, el) == Ok(AddQuestion(blocks, Question("", [])))
    ensures !HasContent(Question("", []))
  {
    NoEmbeddedImages([], QueryImgs(el), false);
  }

  /** A header element opens a new, empty block under its text, whatever its tag or images. */
  lemma HeaderOpensBlock(blocks: seq<Block>, el: Node)
    requires IsBlockHeader(ElementText(el))
    ensures ElementStep(blocks, el) == Ok(blocks + [Block(ElementText(el), [])])
  {
  }

  /** A non-list element that is not blank is one question with its whole text and its decoded images. */
  lemma ElementIsOneQuestion(blocks: seq<Block>, el: Node)
    requires blocks != [] && !IsBlockHeader(ElementText(el)) && !IsList(el) && !IsBlank(el)
    requires ImagesOfElement(el, false).Ok?
    ensures ElementStep(blocks, el) == Ok(AddQuestion(blocks, Question(ElementText(el), ImagesOfElement(el, false).value)))
  {
  }
}
