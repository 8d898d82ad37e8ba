/**
  The state both pages keep between user actions (`blocks`, `tickets` and whether an error
  message is showing) and the two handlers that change it: loading a document and generating
  tickets. A document is given as the child nodes of its parsed body.
 */
module Pages {
  import opened Common
  import opened Dom
  import opened Records
  import opened Blocks
  import opened Tickets
  import Parser
  import LegacyParser

  /** The question-bank page. */
  class Page {
    var blocks: seq<Block>
    var tickets: seq<Ticket>
    var failed: bool

    /** What every parse leaves: non-empty blocks named by headers, whose questions have content. */
    ghost predicate Valid()
      reads this
    {
      AllBlocksNonEmpty(blocks) && HeadersNamed(blocks) && AllHaveContent(blocks)
    }

    constructor()
      ensures Valid() && blocks == [] && tickets == [] && !failed
    {
      blocks := [];
      tickets := [];
      failed := false;
    }

    /**
      `handleFileChange` once the document is converted: clears the blocks, the tickets and the
      error, then keeps the parsed blocks, or shows the error and no blocks when an image payload
      is not base64.
     */
    method LoadDocument(body: seq<Node>)
      modifies this
      ensures Valid() && tickets == []
      ensures Parser.ParseBlocks(body).Ok? ==> blocks == Parser.ParseBlocks(body).value && !failed
      ensures Parser.ParseBlocks(body).Err? ==> blocks == [] && failed
    {
      blocks := [];
      tickets := [];
      failed := false;
      var parsed := Parser.ParseBlocksFromHtml(body);
      if parsed.Ok? {
        Parser.ParsedBlocksWellFormed(body);
        blocks := parsed.value;
      } else {
        failed := true;
      }
    }

    /**
      `generateTicketsFromDoc` with the draws `draws` standing for `Math.random`: on failure the
      tickets stay as they were and the alert is returned; on success they are replaced.
     */
    method GenerateTickets(count: int, strict: bool, draws: seq<seq<int>>) returns (alert: Option<GenerateError>)
      requires Valid() && DrawsFor(blocks, draws)
      modifies this`tickets
      ensures Generate(blocks, count, strict, draws).Err? ==>
        alert == Some(Generate(blocks, count, strict, draws).error) && tickets == old(tickets)
      ensures Generate(blocks, count, strict, draws).Ok? ==>
        alert == None && tickets == Generate(blocks, count, strict, draws).value
    {
      var r := Tickets.GenerateTickets(blocks, count, strict, draws);
      if r.Err? {
        return Some(r.error);
      }
      tickets := r.value;
      return None;
    }
  }

  /** The file-reading page, with the earlier parser. */
  class LegacyPage {
    var blocks: seq<Block>
    var tickets: seq<Ticket>
    var failed: bool

    /** What every parse of this page leaves: non-empty blocks named by headers. */
    ghost predicate Valid()
      reads this
    {
      AllBlocksNonEmpty(blocks) && HeadersNamed(blocks)
    }

    constructor()
      ensures Valid() && blocks == [] && tickets == [] && !failed
    {
      blocks := [];
      tickets := [];
      failed := false;
    }

    method LoadDocument(body: seq<Node>)
      modifies this
      ensures Valid() && tickets == []
      ensures LegacyParser.ParseBlocks(body).Ok? ==> blocks == LegacyParser.ParseBlocks(body).value && !failed
      ensures LegacyParser.ParseBlocks(body).Err? ==> blocks == [] && failed
    {
      blocks := [];
      tickets := [];
      failed := false;
      var parsed := LegacyParser.ParseBlocksFromHtml(body);
      if parsed.Ok? {
        LegacyParser.ParsedBlocksWellFormed(body);
        blocks := parsed.value;
      } else {
        failed := true;
      }
    }

    method GenerateTickets(count: int, strict: bool, draws: seq<seq<int>>) returns (alert: Option<GenerateError>)
      requires Valid() && DrawsFor(blocks, draws)
      modifies this`tickets
      ensures Generate(blocks, count, strict, draws).Err? ==>
        alert == Some(Generate(blocks, count, strict, draws).error) && tickets == old(tickets)
      ensures Generate(blocks, count, strict, draws).Ok? ==>
        alert == None && tickets == Generate(blocks, count, strict, draws).value
    {
      var r := Tickets.GenerateTickets(blocks, count, strict, draws);
      if r.Err? {
        return Some(r.error);
      }
      tickets := r.value;
      return None;
    }
  }
}
