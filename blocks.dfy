/**
  What both versions of `parseBlocksFromHtml` share: the block-header test, the list test and
  list items, collecting the embedded images of an element, the updates a parser makes to the
  block it is filling (`currentBlock`, which is always the last block pushed), and the final
  filter that drops blocks without questions.
 */
module Blocks {
  import opened Common
  import opened Strings
  import opened Dom
  import opened Records
  import opened Images

  /** The word every block header carries after its Roman numeral. */
  const BlockWord: string := "BLOK"

  /** `numeral\s*BLOK`, case-insensitively, at the start of `text`. */
  predicate HeaderWith(text: string, numeral: string) {
    StartsWithCI(text, numeral)
    && var rest := text[|numeral|..];
    StartsWithCI(rest[LeadingSpaces(rest)..], BlockWord)
  }

  /**
    `/^(I|II|III|IV|V)\s*BLOK/i.test(text)`: one of the alternatives followed by the word. The
    regular expression backtracks into the next alternative when one fails, so the test is the
    disjunction over the five numerals.
   */
  predicate MatchesBlockRegex(text: string) {
    HeaderWith(text, "I") || HeaderWith(text, "II") || HeaderWith(text, "III")
    || HeaderWith(text, "IV") || HeaderWith(text, "V")
  }

  /** `text && blockRegex.test(text)` on an element's trimmed text. */
  predicate IsBlockHeader(text: string) {
    text != "" && MatchesBlockRegex(text)
  }

  /** An element's trimmed `textContent`. */
  function ElementText(el: Node): string {
    Trim(TextContent(el))
  }

  /** `el.tagName === "OL" || el.tagName === "UL"`. */
  predicate IsList(el: Node) {
    el.Element? && (el.tag == "OL" || el.tag == "UL")
  }

  /** `Array.from(el.children).filter((child) => child.tagName === "LI")`. */
  function ListItems(el: Node): (r: seq<Node>)
    ensures forall k | 0 <= k < |r| :: r[k].Element? && r[k].tag == "LI"
  {
    LiOnly(Children(el))
  }

  function LiOnly(nodes: seq<Node>): (r: seq<Node>)
    ensures forall k | 0 <= k < |r| :: r[k].Element? && r[k].tag == "LI" && r[k] in nodes
    ensures forall k | 0 <= k < |nodes| && nodes[k].Element? && nodes[k].tag == "LI" :: nodes[k] in r
  {
    if nodes == [] then []
    else (if nodes[0].Element? && nodes[0].tag == "LI" then [nodes[0]] else []) + LiOnly(nodes[1..])
  }

  /**
    The image one `<img>` contributes: none when `src` is missing or empty or not a data URL with a
    payload; the decoded image, with the tag's size when `sized`, otherwise; and the parse is
    aborted when the payload is not base64.
   */
  function ImageOf(img: Node, sized: bool): Result<Option<QuestionImage>, ParseError> {
    var src := GetAttribute(img, "src");
    if src.None? || src.value == "" then Ok(None)
    else
      match DataUrlImage(src.value)
      case Err(e) => Err(e)
      case Ok(None) => Ok(None)
      case Ok(Some(e)) =>
        var size := if sized then ReadImgSize(img) else (None, None);
        Ok(Some(QuestionImage(e.contentType, e.data, size.0, size.1)))
  }

  /** The `imgEls.forEach` loop run over `imgs` after `acc` has been collected. */
  function ImagesFrom(acc: seq<QuestionImage>, imgs: seq<Node>, sized: bool): Result<seq<QuestionImage>, ParseError>
    decreases |imgs|
  {
    if imgs == [] then Ok(acc)
    else
      match ImageOf(imgs[0], sized)
      case Err(e) => Err(e)
      case Ok(None) => ImagesFrom(acc, imgs[1..], sized)
      case Ok(Some(q)) => ImagesFrom(acc + [q], imgs[1..], sized)
  }

  /** The loop throws exactly when one of the `<img>` tags it visits throws. */
  lemma {:induction false} ImagesFromFails(acc: seq<QuestionImage>, imgs: seq<Node>, sized: bool)
    ensures ImagesFrom(acc, imgs, sized).Err? <==> exists k | 0 <= k < |imgs| :: ImageOf(imgs[k], sized).Err?
    decreases |imgs|
  {
    if imgs != [] {
      var one := ImageOf(imgs[0], sized);
      var rest := imgs[1..];
      if one.Ok? {
        var acc' := if one.value.Some? then acc + [one.value.value] else acc;
        assert ImagesFrom(acc, imgs, sized) == ImagesFrom(acc', rest, sized);
        ImagesFromFails(acc', rest, sized);
        if exists k | 0 <= k < |imgs| :: ImageOf(imgs[k], sized).Err? {
          var k :| 0 <= k < |imgs| && ImageOf(imgs[k], sized).Err?;
          assert rest[k - 1] == imgs[k];
        }
        if exists k | 0 <= k < |rest| :: ImageOf(rest[k], sized).Err? {
          var k :| 0 <= k < |rest| && ImageOf(rest[k], sized).Err?;
          assert imgs[k + 1] == rest[k];
        }
      } else {
        assert ImageOf(imgs[0], sized).Err?;
      }
    }
  }

  /** One `<img>` throws exactly when it has a `src` whose conversion throws. */
  lemma ImageOfFails(img: Node, sized: bool)
    ensures ImageOf(img, sized).Err? <==>
      GetAttribute(img, "src").Some? && DataUrlImage(GetAttribute(img, "src").value).Err?
  {
    var src := GetAttribute(img, "src");
    if src.Some? && src.value == "" {
      assert !StartsWith(src.value, DataScheme);
    }
  }

  /** The images of an element's descendant `<img>` tags. */
  function ImagesOfElement(el: Node, sized: bool): Result<seq<QuestionImage>, ParseError> {
    ImagesFrom([], QueryImgs(el), sized)
  }

  /** The `imgEls.forEach` loop: decodes each `<img>` in document order and pushes what it yields. */
  method CollectImages(imgs: seq<Node>, sized: bool) returns (r: Result<seq<QuestionImage>, ParseError>)
    ensures r == ImagesFrom([], imgs, sized)
  {
    var images: seq<QuestionImage> := [];
    for i := 0 to |imgs|
      invariant ImagesFrom(images, imgs[i..], sized) == ImagesFrom([], imgs, sized)
    {
      assert imgs[i..][1..] == imgs[i + 1..];
      var img := imgs[i];
      var src := GetAttribute(img, "src");
      if src.None? || src.value == "" {
        continue;
      }
      var decoded := DataUrlToImage(src.value);
      if decoded.Err? {
        return Err(decoded.error);
      }
      if decoded.value.None? {
        continue;
      }
      var size := if sized then ReadImgSize(img) else (None, None);
      images := images + [QuestionImage(decoded.value.value.contentType, decoded.value.value.data, size.0, size.1)];
    }
    assert imgs[|imgs|..] == [];
    return Ok(images);
  }

  /** What has been collected stays in front, and each `<img>` adds at most one image. */
  lemma {:induction false} ImagesFromKeeps(acc: seq<QuestionImage>, imgs: seq<Node>, sized: bool)
    ensures ImagesFrom(acc, imgs, sized).Ok? ==>
      var r := ImagesFrom(acc, imgs, sized).value;
      |acc| <= |r| <= |acc| + |imgs| && r[..|acc|] == acc
    decreases |imgs|
  {
    if imgs != [] {
      var rest := imgs[1..];
      var one := ImageOf(imgs[0], sized);
      if one.Ok? {
        var acc' := if one.value.Some? then acc + [one.value.value] else acc;
        assert ImagesFrom(acc, imgs, sized) == ImagesFrom(acc', rest, sized);
        ImagesFromKeeps(acc', rest, sized);
        if ImagesFrom(acc', rest, sized).Ok? {
          var r := ImagesFrom(acc', rest, sized).value;
          assert r[..|acc|] == r[..|acc'|][..|acc|];
        }
      }
    }
  }

  /** A tag whose `src` is absent, empty or not a `data:` URL contributes no image and cannot fail. */
  predicate NotEmbedded(img: Node) {
    var src := GetAttribute(img, "src");
    src.None? || !StartsWith(src.value, DataScheme)
  }

  /** Tags none of which embeds its image add nothing: the collected list stays as it was. */
  lemma {:induction false} NoEmbeddedImages(acc: seq<QuestionImage>, imgs: seq<Node>, sized: bool)
    requires forall k | 0 <= k < |imgs| :: NotEmbedded(imgs[k])
    ensures ImagesFrom(acc, imgs, sized) == Ok(acc)
    decreases |imgs|
  {
    if imgs != [] {
      assert ImageOf(imgs[0], sized) == Ok(None);
      NoEmbeddedImages(acc, imgs[1..], sized);
    }
  }

  /** The block `currentBlock` points at. */
  function Current(blocks: seq<Block>): Block
    requires blocks != []
  {
    blocks[|blocks| - 1]
  }

  /** `currentBlock.questions.push(q)`. */
  function AddQuestion(blocks: seq<Block>, q: Question): (r: seq<Block>)
    requires blocks != []
    ensures |r| == |blocks| && r[..|r| - 1] == blocks[..|blocks| - 1]
    ensures Current(r) == Block(Current(blocks).name, Current(blocks).questions + [q])
  {
    var b := Current(blocks);
    blocks[..|blocks| - 1] + [Block(b.name, b.questions + [q])]
  }

  /** `parts.forEach((qText) => currentBlock.questions.push({ text: qText, images: [] }))`. */
  function AddTextQuestions(blocks: seq<Block>, parts: seq<string>): (r: seq<Block>)
    requires blocks != []
    ensures |r| == |blocks| && r[..|r| - 1] == blocks[..|blocks| - 1]
    ensures Current(r).name == Current(blocks).name
    ensures Current(r).questions == Current(blocks).questions + TextQuestions(parts)
  {
    var b := Current(blocks);
    blocks[..|blocks| - 1] + [Block(b.name, b.questions + TextQuestions(parts))]
  }

  function TextQuestions(parts: seq<string>): (r: seq<Question>)
    ensures |r| == |parts| && forall k | 0 <= k < |parts| :: r[k] == Question(parts[k], [])
  {
    seq(|parts|, k requires 0 <= k < |parts| => Question(parts[k], []))
  }

  /**
    `lastQ.images = [...lastQ.images, ...images]` on the current block's last question: only that
    question's images change, by the new ones appended.
   */
  function AttachImages(blocks: seq<Block>, images: seq<QuestionImage>): (r: seq<Block>)
    requires blocks != [] && Current(blocks).questions != []
    ensures |r| == |blocks| && r[..|r| - 1] == blocks[..|blocks| - 1]
    ensures var old_qs, new_qs := Current(blocks).questions, Current(r).questions;
      Current(r).name == Current(blocks).name && |new_qs| == |old_qs|
      && new_qs[..|new_qs| - 1] == old_qs[..|old_qs| - 1]
      && new_qs[|new_qs| - 1] == Question(old_qs[|old_qs| - 1].text, old_qs[|old_qs| - 1].images + images)
  {
    var b := Current(blocks);
    var last := b.questions[|b.questions| - 1];
    var qs := b.questions[..|b.questions| - 1] + [Question(last.text, last.images + images)];
    blocks[..|blocks| - 1] + [Block(b.name, qs)]
  }

  /** `blocks.filter((b) => b.questions.length > 0)`. */
  function NonEmptyBlocks(blocks: seq<Block>): (r: seq<Block>)
    ensures AllBlocksNonEmpty(r)
    ensures forall k | 0 <= k < |r| :: r[k] in blocks
    ensures forall k | 0 <= k < |blocks| && |blocks[k].questions| > 0 :: blocks[k] in r
    ensures AllBlocksNonEmpty(blocks) ==> r == blocks
  {
    if blocks == [] then []
    else (if |blocks[0].questions| > 0 then [blocks[0]] else []) + NonEmptyBlocks(blocks[1..])
  }

  /** The filter works block by block: filtering two runs of blocks and joining them is filtering the whole. */
  lemma {:induction false} NonEmptyBlocksAppend(a: seq<Block>, b: seq<Block>)
    ensures NonEmptyBlocks(a + b) == NonEmptyBlocks(a) + NonEmptyBlocks(b)
    decreases |a|
  {
    if a == [] {
      assert a + b == b;
    } else {
      assert (a + b)[0] == a[0] && (a + b)[1..] == a[1..] + b;
      NonEmptyBlocksAppend(a[1..], b);
    }
  }

  /** How many questions each block holds. */
  function QuestionCounts(blocks: seq<Block>): (r: seq<nat>)
    ensures |r| == |blocks| && forall k | 0 <= k < |blocks| :: r[k] == |blocks[k].questions|
  {
    seq(|blocks|, k requires 0 <= k < |blocks| => |blocks[k].questions|)
  }

  /** The elements of `xs` whose count is positive, in order. */
  function Masked<T>(xs: seq<T>, counts: seq<nat>): (r: seq<T>)
    requires |xs| == |counts|
    ensures |r| <= |xs|
  {
    if xs == [] then []
    else (if counts[0] > 0 then [xs[0]] else []) + Masked(xs[1..], counts[1..])
  }

  /** The names of joined block runs are the names of each run, joined. */
  lemma NamesConcat(a: seq<Block>, b: seq<Block>)
    ensures Names(a + b) == Names(a) + Names(b)
  {
    assert forall k | 0 <= k < |a + b| :: (a + b)[k] == if k < |a| then a[k] else b[k - |a|];
  }

  /**
    The filter keeps exactly the names of the blocks that hold a question, in their order: no
    block with questions is lost, and no empty one survives.
   */
  lemma {:induction false} NamesOfNonEmptyBlocks(blocks: seq<Block>)
    ensures Names(NonEmptyBlocks(blocks)) == Masked(Names(blocks), QuestionCounts(blocks))
    decreases |blocks|
  {
    if blocks != [] {
      var head := if |blocks[0].questions| > 0 then [blocks[0]] else [];
      NamesOfNonEmptyBlocks(blocks[1..]);
      NamesConcat(head, NonEmptyBlocks(blocks[1..]));
      assert Names(blocks)[1..] == Names(blocks[1..]);
      assert QuestionCounts(blocks)[1..] == QuestionCounts(blocks[1..]);
      assert Names(head) == if |blocks[0].questions| > 0 then [Names(blocks)[0]] else [];
    }
  }

  /**
    After the filter, the block names are the texts of the header elements whose blocks received
    at least one question, in document order.
   */
  lemma FilledHeaderNames(step: Step, els: seq<Node>)
    requires NamesFromHeaders(step)
    ensures ElementsFrom(step, [], els).Ok? ==>
      var all := ElementsFrom(step, [], els).value;
      Names(all) == HeaderTexts(els) && Names(NonEmptyBlocks(all)) == Masked(Names(all), QuestionCounts(all))
  {
    FoldNamesHeaders(step, [], els);
    if ElementsFrom(step, [], els).Ok? {
      NamesOfNonEmptyBlocks(ElementsFrom(step, [], els).value);
    }
  }

  /** Every question of every block has text or an image. */
  predicate AllHaveContent(blocks: seq<Block>) {
    forall b, q | b in blocks && q in b.questions :: HasContent(q)
  }

  /** Every block is named after a header element's text. */
  predicate HeadersNamed(blocks: seq<Block>) {
    forall b | b in blocks :: IsBlockHeader(b.name)
  }

  /** `after` differs from `before` at most in the questions of the current block. */
  predicate OnlyCurrentChanged(before: seq<Block>, after: seq<Block>) {
    before != [] && |after| == |before| && after[..|after| - 1] == before[..|before| - 1]
    && Current(after).name == Current(before).name
  }

  /** Changing the current block's questions leaves every block name where it was. */
  lemma NamesKept(before: seq<Block>, after: seq<Block>)
    requires OnlyCurrentChanged(before, after)
    ensures Names(after) == Names(before)
  {
    forall k | 0 <= k < |before|
      ensures Names(after)[k] == Names(before)[k]
    {
      if k < |before| - 1 {
        assert after[k] == after[..|after| - 1][k];
      }
    }
  }

  /** The texts of the header elements among `els`, in order. */
  function HeaderTexts(els: seq<Node>): seq<string> {
    if els == [] then []
    else (if IsBlockHeader(ElementText(els[0])) then [ElementText(els[0])] else []) + HeaderTexts(els[1..])
  }

  /** Header texts of a sequence are those of its head followed by those of its tail. */
  lemma HeaderTextsCons(els: seq<Node>)
    requires els != []
    ensures HeaderTexts(els) == HeaderTexts([els[0]]) + HeaderTexts(els[1..])
  {
  }

  /** What one pass of the loop over the body's child elements does to the blocks built so far. */
  type Step = (seq<Block>, Node) -> Result<seq<Block>, ParseError>

  /** `for (const el of elements)`: the steps in document order, the first error ending the loop. */
  function ElementsFrom(step: Step, blocks: seq<Block>, els: seq<Node>): Result<seq<Block>, ParseError>
    decreases |els|
  {
    if els == [] then Ok(blocks)
    else
      match step(blocks, els[0])
      case Err(e) => Err(e)
      case Ok(next) => ElementsFrom(step, next, els[1..])
  }

  /** No element of `els` is a header. */
  lemma {:induction false} NoHeaderTexts(els: seq<Node>)
    requires HeaderTexts(els) == []
    ensures forall k | 0 <= k < |els| :: !IsBlockHeader(ElementText(els[k]))
    decreases |els|
  {
    if els != [] {
      HeaderTextsCons(els);
      NoHeaderTexts(els[1..]);
      forall k | 1 <= k < |els|
        ensures !IsBlockHeader(ElementText(els[k]))
      {
        assert els[k] == els[1..][k - 1];
      }
    }
  }

  /** A step adds the element's text to the block names when it is a header, and no name otherwise. */
  ghost predicate NamesFromHeaders(step: Step) {
    forall blocks, el :: step(blocks, el).Ok? ==> Names(step(blocks, el).value) == Names(blocks) + HeaderTexts([el])
  }

  /** A step preserves `inv`. */
  ghost predicate Keeps(step: Step, inv: seq<Block> -> bool) {
    forall blocks, el :: inv(blocks) && step(blocks, el).Ok? ==> inv(step(blocks, el).value)
  }

  /** Elements that each leave an empty block list unchanged are skipped. */
  lemma {:induction false} FoldSkips(step: Step, pre: seq<Node>, rest: seq<Node>)
    requires forall k | 0 <= k < |pre| :: step([], pre[k]) == Ok([])
    ensures ElementsFrom(step, [], pre + rest) == ElementsFrom(step, [], rest)
    decreases |pre|
  {
    if pre == [] {
      assert pre + rest == rest;
    } else {
      assert (pre + rest)[0] == pre[0] && (pre + rest)[1..] == pre[1..] + rest;
      assert forall k | 0 <= k < |pre[1..]| :: pre[1..][k] == pre[k + 1];
      FoldSkips(step, pre[1..], rest);
    }
  }

  /** The block names are the header texts, in document order. */
  lemma {:induction false} FoldNamesHeaders(step: Step, blocks: seq<Block>, els: seq<Node>)
    requires NamesFromHeaders(step)
    ensures ElementsFrom(step, blocks, els).Ok? ==>
      Names(ElementsFrom(step, blocks, els).value) == Names(blocks) + HeaderTexts(els)
    decreases |els|
  {
    if els != [] && step(blocks, els[0]).Ok? {
      var next := step(blocks, els[0]).value;
      FoldNamesHeaders(step, next, els[1..]);
      HeaderTextsCons(els);
      assert Names(next) == Names(blocks) + HeaderTexts([els[0]]);
    }
  }

  /** An invariant every step preserves holds of the loop's result. */
  lemma {:induction false} FoldKeeps(step: Step, inv: seq<Block> -> bool, blocks: seq<Block>, els: seq<Node>)
    requires Keeps(step, inv) && inv(blocks)
    ensures ElementsFrom(step, blocks, els).Ok? ==> inv(ElementsFrom(step, blocks, els).value)
    decreases |els|
  {
    if els != [] && step(blocks, els[0]).Ok? {
      FoldKeeps(step, inv, step(blocks, els[0]).value, els[1..]);
    }
  }

  /** Keeping the current block's name and the other blocks keeps every block header-named. */
  lemma CurrentChangeNamed(before: seq<Block>, after: seq<Block>)
    requires HeadersNamed(before) && OnlyCurrentChanged(before, after)
    ensures HeadersNamed(after)
  {
    forall b | b in after
      ensures IsBlockHeader(b.name)
    {
      var k :| 0 <= k < |after| && after[k] == b;
      if k < |after| - 1 {
        assert b == before[..|before| - 1][k];
      }
      assert b.name == before[k].name;
      assert before[k] in before;
    }
  }

  /** The filter keeps the names of blocks that were header-named. */
  lemma NonEmptyBlocksNamed(blocks: seq<Block>)
    requires HeadersNamed(blocks)
    ensures HeadersNamed(NonEmptyBlocks(blocks))
  {
    var kept := NonEmptyBlocks(blocks);
    forall b | b in kept
      ensures IsBlockHeader(b.name)
    {
      var k :| 0 <= k < |kept| && kept[k] == b;
      assert b in blocks;
    }
  }

  /** Any Roman numeral of the five, then any whitespace, then the word in any case starts a header. */
  lemma HeaderOf(numeral: string, spaces: string, word: string, rest: string)
    requires numeral in ["I", "II", "III", "IV", "V"]
    requires AllSpace(spaces)
    requires |word| == 4 && forall k | 0 <= k < 4 :: ToLowerChar(word[k]) == ToLowerChar(BlockWord[k])
    ensures IsBlockHeader(numeral + spaces + word + rest)
  {
    var t := numeral + spaces + word + rest;
    assert t[..|numeral|] == numeral;
    var after := t[|numeral|..];
    assert after == spaces + word + rest;
    AllSpacePrefix(spaces, word + rest);
    assert after[|spaces|..] == word + rest;
    assert StartsWithCI(t, numeral);
    assert HeaderWith(t, numeral);
  }

  /** Leading whitespace is exactly the whitespace prefix when a non-space follows it. */
  lemma {:induction false} AllSpacePrefix(spaces: string, rest: string)
    requires AllSpace(spaces) && rest != [] && !IsSpace(rest[0])
    ensures LeadingSpaces(spaces + rest) == |spaces|
  {
    if spaces != [] {
      assert (spaces + rest)[1..] == spaces[1..] + rest;
      AllSpacePrefix(spaces[1..], rest);
    }
  }

  /** A text that does not start with `I` or `V` in either case is never a header. */
  lemma NotHeader(text: string)
    requires text != [] && ToLowerChar(text[0]) != 'i' && ToLowerChar(text[0]) != 'v'
    ensures !IsBlockHeader(text)
  {
  }
}
