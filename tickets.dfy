/**
  `generateTicketsFromDoc`, the same on both pages: validate the request, shuffle each block's
  questions, then build `count` tickets, ticket `i` taking from every block, in block order,
  the `i`-th shuffled question (strict mode) or the `i mod n`-th one (wrap mode).
 */
module Tickets {
  import opened Common
  import opened Records
  import opened Shuffling

  /** The three alerts that end a generate without producing tickets. */
  datatype GenerateError = NoBlocks | InvalidCount | NotEnoughQuestions(block: string)

  /** `blocks.find((b) => b.questions.length < count)`, as the position of the block it finds. */
  function FirstShort(blocks: seq<Block>, count: int): (r: Option<nat>)
    ensures r.Some? ==> (r.value < |blocks| && |blocks[r.value].questions| < count
      && forall k | 0 <= k < r.value :: |blocks[k].questions| >= count)
    ensures r.None? <==> forall k | 0 <= k < |blocks| :: |blocks[k].questions| >= count
  {
    if blocks == [] then None
    else if |blocks[0].questions| < count then Some(0)
    else
      match FirstShort(blocks[1..], count)
      case None => None
      case Some(k) => Some(k + 1)
  }

  /** The checks, in the order the handler runs them. */
  function Validate(blocks: seq<Block>, count: int, strict: bool): Option<GenerateError> {
    if blocks == [] then Some(NoBlocks)
    else if count < 1 then Some(InvalidCount)
    else if strict && FirstShort(blocks, count).Some? then
      Some(NotEnoughQuestions(blocks[FirstShort(blocks, count).value].name))
    else None
  }

  /** One valid draw sequence per block, for shuffling that block's questions. */
  predicate DrawsFor(blocks: seq<Block>, draws: seq<seq<int>>) {
    |draws| == |blocks| && forall k | 0 <= k < |blocks| :: ValidDraws(draws[k], |blocks[k].questions|)
  }

  /** `blocks.map((b) => ({ name: b.name, questions: shuffle(b.questions) }))`. */
  function ShuffleBlocks(blocks: seq<Block>, draws: seq<seq<int>>): (r: seq<Block>)
    requires DrawsFor(blocks, draws)
    ensures |r| == |blocks|
    ensures forall k | 0 <= k < |blocks| ::
      r[k].name == blocks[k].name && |r[k].questions| == |blocks[k].questions|
    ensures forall k | 0 <= k < |blocks| :: multiset(r[k].questions) == multiset(blocks[k].questions)
  {
    BlocksShufflePermute(blocks, draws);
    seq(|blocks|, k requires 0 <= k < |blocks| => Block(blocks[k].name, Shuffled(blocks[k].questions, draws[k])))
  }

  /** Every block's shuffle is a permutation of its questions. */
  lemma BlocksShufflePermute(blocks: seq<Block>, draws: seq<seq<int>>)
    requires DrawsFor(blocks, draws)
    ensures forall k | 0 <= k < |blocks| ::
      multiset(Shuffled(blocks[k].questions, draws[k])) == multiset(blocks[k].questions)
  {
    forall k | 0 <= k < |blocks| ensures multiset(Shuffled(blocks[k].questions, draws[k])) == multiset(blocks[k].questions) {
      ShuffledPermutes(blocks[k].questions, draws[k]);
    }
  }

  /** Whether ticket `i` can take a question from `b`: position `i` exists, or `b` is not empty. */
  predicate Pickable(b: Block, i: nat, strict: bool) {
    if strict then i < |b.questions| else |b.questions| > 0
  }

  /** `strictNoRepeat ? b.questions[i] : b.questions[i % b.questions.length]`. */
  function Pick(b: Block, i: nat, strict: bool): Question
    requires Pickable(b, i, strict)
  {
    if strict then b.questions[i] else b.questions[i % |b.questions|]
  }

  /** Ticket `i`: numbered `i + 1`, one question from each block in block order. */
  function TicketAt(shuffled: seq<Block>, i: nat, strict: bool): Ticket
    requires forall k | 0 <= k < |shuffled| :: Pickable(shuffled[k], i, strict)
  {
    Ticket(i + 1, seq(|shuffled|, k requires 0 <= k < |shuffled| =>
      TicketQuestion(shuffled[k].name, Pick(shuffled[k], i, strict))))
  }

  predicate AllPickable(shuffled: seq<Block>, count: nat, strict: bool) {
    forall k, i | 0 <= k < |shuffled| && 0 <= i < count :: Pickable(shuffled[k], i, strict)
  }

  function AllTickets(shuffled: seq<Block>, count: nat, strict: bool): seq<Ticket>
    requires AllPickable(shuffled, count, strict)
  {
    seq(count, i requires 0 <= i < count => TicketAt(shuffled, i, strict))
  }

  /** What generating `count` tickets yields: an error, or the tickets. */
  function Generate(blocks: seq<Block>, count: int, strict: bool, draws: seq<seq<int>>): Result<seq<Ticket>, GenerateError>
    requires DrawsFor(blocks, draws)
    requires strict || AllBlocksNonEmpty(blocks)
  {
    match Validate(blocks, count, strict)
    case Some(e) => Err(e)
    case None =>
      var shuffled := ShuffleBlocks(blocks, draws);
      assert AllPickable(shuffled, count, strict) by {
        forall k, i | 0 <= k < |shuffled| && 0 <= i < count
          ensures Pickable(shuffled[k], i, strict)
        {
          assert blocks[k] in blocks;
        }
      }
      Ok(AllTickets(shuffled, count, strict))
  }

  /** The `blocks.map` that shuffles every block's questions. */
  method ShuffleAll(blocks: seq<Block>, draws: seq<seq<int>>) returns (shuffled: seq<Block>)
    requires DrawsFor(blocks, draws)
    ensures shuffled == ShuffleBlocks(blocks, draws)
  {
    shuffled := [];
    for k := 0 to |blocks|
      invariant |shuffled| == k
      invariant forall m | 0 <= m < k :: shuffled[m] == Block(blocks[m].name, Shuffled(blocks[m].questions, draws[m]))
    {
      var qs := Shuffle(blocks[k].questions, draws[k]);
      shuffled := shuffled + [Block(blocks[k].name, qs)];
    }
  }

  /** The inner `shuffled.forEach` that fills ticket `i`. */
  method MakeTicket(shuffled: seq<Block>, i: nat, strict: bool) returns (t: Ticket)
    requires forall k | 0 <= k < |shuffled| :: Pickable(shuffled[k], i, strict)
    ensures t == TicketAt(shuffled, i, strict)
  {
    var tq: seq<TicketQuestion> := [];
    for k := 0 to |shuffled|
      invariant |tq| == k
      invariant forall m | 0 <= m < k :: tq[m] == TicketQuestion(shuffled[m].name, Pick(shuffled[m], i, strict))
    {
      var b := shuffled[k];
      var q := if strict then b.questions[i] else b.questions[i % |b.questions|];
      tq := tq + [TicketQuestion(b.name, q)];
    }
    return Ticket(i + 1, tq);
  }

  /** `generateTicketsFromDoc`: the checks, the shuffles, then the loop over tickets and blocks. */
  method GenerateTickets(blocks: seq<Block>, count: int, strict: bool, draws: seq<seq<int>>)
    returns (r: Result<seq<Ticket>, GenerateError>)
    requires DrawsFor(blocks, draws)
    requires strict || AllBlocksNonEmpty(blocks)
    ensures r == Generate(blocks, count, strict, draws)
  {
    if blocks == [] {
      return Err(NoBlocks);
    }
    if count < 1 {
      return Err(InvalidCount);
    }
    if strict {
      var bad := FirstShort(blocks, count);
      if bad.Some? {
        return Err(NotEnoughQuestions(blocks[bad.value].name));
      }
    }
    var shuffled := ShuffleAll(blocks, draws);
    assert AllPickable(shuffled, count, strict) by {
      forall k, i | 0 <= k < |shuffled| && 0 <= i < count
        ensures Pickable(shuffled[k], i, strict)
      {
        assert blocks[k] in blocks;
      }
    }
    var tickets: seq<Ticket> := [];
    for i := 0 to count
      invariant |tickets| == i
      invariant forall t | 0 <= t < i :: tickets[t] == TicketAt(shuffled, t, strict)
    {
      var t := MakeTicket(shuffled, i, strict);
      tickets := tickets + [t];
    }
    assert tickets == AllTickets(shuffled, count, strict);
    return Ok(tickets);
  }

  // Properties of ticket generation.

  /**
    Generation fails on no blocks first, then on a count below 1, then (strict mode only) on the
    first block with fewer questions than tickets, and succeeds otherwise.
   */
  lemma ValidationOrder(blocks: seq<Block>, count: int, strict: bool, draws: seq<seq<int>>)
    requires DrawsFor(blocks, draws)
    requires strict || AllBlocksNonEmpty(blocks)
    ensures Generate(blocks, count, strict, draws) == Err(NoBlocks) <==> blocks == []
    ensures Generate(blocks, count, strict, draws) == Err(InvalidCount) <==> blocks != [] && count < 1
    ensures Generate(blocks, count, strict, draws).Ok? <==>
      blocks != [] && count >= 1 && (strict ==> forall b | b in blocks :: |b.questions| >= count)
    ensures forall name :: Generate(blocks, count, strict, draws) == Err(NotEnoughQuestions(name)) ==>
      strict && blocks != [] && count >= 1
      && exists k | 0 <= k < |blocks| :: blocks[k].name == name && |blocks[k].questions| < count
           && forall m | 0 <= m < k :: |blocks[m].questions| >= count
  {
    if blocks != [] && count >= 1 && strict {
      if FirstShort(blocks, count).Some? {
        var k := FirstShort(blocks, count).value;
        assert blocks[k] in blocks;
      } else {
        forall b | b in blocks
          ensures |b.questions| >= count
        {
          var k :| 0 <= k < |blocks| && blocks[k] == b;
        }
      }
    }
  }

  /**
    A successful generate yields `count` tickets numbered 1..count, each holding one question from
    every block, in block order, under that block's name; each question comes from its block.
   */
  lemma TicketsShape(blocks: seq<Block>, count: int, strict: bool, draws: seq<seq<int>>)
    requires DrawsFor(blocks, draws)
    requires strict || AllBlocksNonEmpty(blocks)
    ensures Generate(blocks, count, strict, draws).Ok? ==>
      var ts := Generate(blocks, count, strict, draws).value;
      |ts| == count
      && forall i | 0 <= i < count ::
           ts[i].number == i + 1 && |ts[i].questions| == |blocks|
           && forall k | 0 <= k < |blocks| ::
                ts[i].questions[k].block == blocks[k].name && ts[i].questions[k].question in blocks[k].questions
  {
    if Generate(blocks, count, strict, draws).Ok? {
      var ts := Generate(blocks, count, strict, draws).value;
      var shuffled := ShuffleBlocks(blocks, draws);
      forall i, k | 0 <= i < count && 0 <= k < |blocks|
        ensures ts[i].questions[k].question in blocks[k].questions
      {
        var qs := Shuffled(blocks[k].questions, draws[k]);
        ShuffledPermutes(blocks[k].questions, draws[k]);
        assert ts[i].questions[k].question in multiset(qs);
      }
    }
  }

  /** The questions block `k` contributes, ticket by ticket. */
  function Column(ts: seq<Ticket>, k: nat): (r: seq<Question>)
    requires forall i | 0 <= i < |ts| :: k < |ts[i].questions|
    ensures |r| == |ts| && forall i | 0 <= i < |ts| :: r[i] == ts[i].questions[k].question
  {
    seq(|ts|, i requires 0 <= i < |ts| => ts[i].questions[k].question)
  }

  lemma PrefixMultiset<T>(s: seq<T>, n: nat)
    requires n <= |s|
    ensures multiset(s[..n]) <= multiset(s)
  {
    assert s == s[..n] + s[n..];
  }

  /**
    Strict mode never repeats a question: across all tickets, a block hands out each question at
    most as many times as the block holds it.
   */
  lemma StrictNoRepeat(blocks: seq<Block>, count: int, draws: seq<seq<int>>, k: nat)
    requires DrawsFor(blocks, draws) && k < |blocks|
    requires Generate(blocks, count, true, draws).Ok?
    ensures var ts := Generate(blocks, count, true, draws).value;
      (forall i | 0 <= i < |ts| :: k < |ts[i].questions|)
      && multiset(Column(ts, k)) <= multiset(blocks[k].questions)
  {
    var ts := Generate(blocks, count, true, draws).value;
    var qs := Shuffled(blocks[k].questions, draws[k]);
    ValidationOrder(blocks, count, true, draws);
    assert blocks[k] in blocks;
    assert Column(ts, k) == qs[..count];
    PrefixMultiset(qs, count);
    ShuffledPermutes(blocks[k].questions, draws[k]);
  }

  /**
    In wrap mode ticket `i` takes from block `k` the shuffled question at `i mod n`, `n` the block's
    size, so each block's questions come round again with period `n`.
   */
  lemma WrapCycles(blocks: seq<Block>, count: int, draws: seq<seq<int>>, i: nat, k: nat)
    requires DrawsFor(blocks, draws) && AllBlocksNonEmpty(blocks)
    requires Generate(blocks, count, false, draws).Ok?
    requires i < count && k < |blocks|
    ensures var ts := Generate(blocks, count, false, draws).value;
      var n := |blocks[k].questions|;
      n > 0 && |ts| == count && i % n < count
      && k < |ts[i].questions| && k < |ts[i % n].questions|
      && ts[i].questions[k].question == Shuffled(blocks[k].questions, draws[k])[i % n]
      && ts[i].questions[k].question == ts[i % n].questions[k].question
  {
    assert blocks[k] in blocks;
    ModSmall(i, |blocks[k].questions|);
  }

  lemma ModSmall(i: nat, n: nat)
    requires n > 0
    ensures i % n <= i && i % n < n && (i % n) % n == i % n
  {
  }

  /** Picking position `i` directly or modulo the size agrees while `i` is below the size. */
  lemma WrapTicketIsStrict(shuffled: seq<Block>, i: nat)
    requires forall k | 0 <= k < |shuffled| :: i < |shuffled[k].questions|
    ensures TicketAt(shuffled, i, false) == TicketAt(shuffled, i, true)
  {
    forall k | 0 <= k < |shuffled|
      ensures Pick(shuffled[k], i, false) == Pick(shuffled[k], i, true)
    {
      assert i % |shuffled[k].questions| == i;
    }
  }

  /** When every block has a question for every ticket, wrap mode picks exactly what strict mode picks. */
  lemma WrapMatchesStrict(blocks: seq<Block>, count: int, draws: seq<seq<int>>)
    requires DrawsFor(blocks, draws) && AllBlocksNonEmpty(blocks)
    requires forall k | 0 <= k < |blocks| :: |blocks[k].questions| >= count
    ensures Generate(blocks, count, false, draws) == Generate(blocks, count, true, draws)
  {
    if blocks != [] && count >= 1 {
      assert FirstShort(blocks, count).None?;
      var shuffled := ShuffleBlocks(blocks, draws);
      assert AllPickable(shuffled, count, true) && AllPickable(shuffled, count, false);
      forall i | 0 <= i < count
        ensures TicketAt(shuffled, i, false) == TicketAt(shuffled, i, true)
      {
        WrapTicketIsStrict(shuffled, i);
      }
      assert AllTickets(shuffled, count, false) == AllTickets(shuffled, count, true);
    }
  }
}
