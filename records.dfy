/**
  The records the ticket generator passes around (the `QuestionImage`, `Question`,
  `Block`, `TicketQuestion` and `Ticket` types of both pages). They are values here:
  the pages build them once per parse and never share them between owners.
 */
module Records {
  import opened Common

  /** An embedded image: its MIME type, its raw bytes and the pixel size read from the `<img>` tag. */
  datatype QuestionImage = QuestionImage(contentType: string, data: seq<byte>, width: Option<int>, height: Option<int>)

  datatype Question = Question(text: string, images: seq<QuestionImage>)

  /** A named group of questions, delimited in the document by a "N BLOK" header. */
  datatype Block = Block(name: string, questions: seq<Question>)

  datatype TicketQuestion = TicketQuestion(block: string, question: Question)

  datatype Ticket = Ticket(number: int, questions: seq<TicketQuestion>)

  /** Why a parse was aborted: `atob` threw an `InvalidCharacterError` on an embedded image payload. */
  datatype ParseError = InvalidCharacterError

  /** A question worth showing on a ticket: it has some text or at least one image. */
  predicate HasContent(q: Question) {
    q.text != "" || q.images != []
  }

  /** Every block has at least one question (what the parsers leave after their final filter). */
  predicate AllBlocksNonEmpty(blocks: seq<Block>) {
    forall b | b in blocks :: |b.questions| > 0
  }

  function Names(blocks: seq<Block>): (r: seq<string>)
    ensures |r| == |blocks|
    ensures forall k | 0 <= k < |blocks| :: r[k] == blocks[k].name
  {
    if blocks == [] then [] else [blocks[0].name] + Names(blocks[1..])
  }
}
