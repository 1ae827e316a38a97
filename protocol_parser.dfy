/**
 * Protocol parsers and their composition. A parser turns one parse result
 * into a list of results (a TS parser splits a datagram into packets, an RTP
 * parser strips the RTP header); a chain of parsers feeds every output of one
 * stage into the rest of the chain.
 */
module ProtocolParser {
  import opened Bits

  /** A buffer with the header fields a parser read from it; Go's nil map is the empty map. */
  datatype ParseResult = ParseResult(buffer: seq<byte>, fields: map<string, int>, isEmpty: bool)

  /** A parser: the list of results it makes from one input. */
  type Parser = ParseResult -> seq<ParseResult>

  /**
   * ParseWithParsers: no parser gives the input back; one parser gives its output;
   * otherwise every output of the first parser goes through the rest of the chain and
   * the results are joined in order.
   */
  function ParseWithParsers(parsers: seq<Parser>, lastRes: ParseResult): seq<ParseResult>
    decreases |parsers|, 0
  {
    if |parsers| == 0 then [lastRes]
    else if |parsers| == 1 then parsers[0](lastRes)
    else ChainEach(parsers[1..], parsers[0](lastRes))
  }

  /** The chain applied to each item in turn, outputs joined in order. */
  function ChainEach(parsers: seq<Parser>, items: seq<ParseResult>): seq<ParseResult>
    decreases |parsers|, 1, |items|
  {
    if items == [] then []
    else ChainEach(parsers, items[..|items| - 1]) + ParseWithParsers(parsers, items[|items| - 1])
  }

  /** One stage applied to a whole list: every item's outputs, in order. */
  function Stage(p: Parser, items: seq<ParseResult>): (r: seq<ParseResult>)
    ensures items == [] ==> r == []
  {
    if items == [] then [] else Stage(p, items[..|items| - 1]) + p(items[|items| - 1])
  }

  /** The stages run one after the other over whole lists: the breadth-first reading of a chain. */
  function RunStages(parsers: seq<Parser>, items: seq<ParseResult>): seq<ParseResult>
    decreases |parsers|
  {
    if parsers == [] then items else RunStages(parsers[1..], Stage(parsers[0], items))
  }

  lemma {:induction false} StageConcat(p: Parser, a: seq<ParseResult>, b: seq<ParseResult>)
    ensures Stage(p, a + b) == Stage(p, a) + Stage(p, b)
    decreases |b|
  {
    if b != [] {
      var b' := b[..|b| - 1];
      assert (a + b)[..|a + b| - 1] == a + b';
      assert (a + b)[|a + b| - 1] == b[|b| - 1];
      StageConcat(p, a, b');
    } else {
      assert a + b == a;
    }
  }

  lemma {:induction false} RunStagesConcat(parsers: seq<Parser>, a: seq<ParseResult>, b: seq<ParseResult>)
    ensures RunStages(parsers, a + b) == RunStages(parsers, a) + RunStages(parsers, b)
    decreases |parsers|
  {
    if parsers != [] {
      StageConcat(parsers[0], a, b);
      RunStagesConcat(parsers[1..], Stage(parsers[0], a), Stage(parsers[0], b));
    }
  }

  lemma StageOne(p: Parser, x: ParseResult)
    ensures Stage(p, [x]) == p(x)
  {
    assert [x][..0] == [];
  }

  /** ChainEach of a list is the chain run stage by stage over that list. */
  lemma {:induction false} ChainEachIsStages(parsers: seq<Parser>, items: seq<ParseResult>)
    ensures ChainEach(parsers, items) == RunStages(parsers, items)
    decreases |parsers|, 1, |items|
  {
    if items == [] {
      RunStagesEmpty(parsers);
    } else {
      var init, last := items[..|items| - 1], items[|items| - 1];
      ChainEachIsStages(parsers, init);
      ParseWithParsersIsStages(parsers, last);
      assert items == init + [last];
      RunStagesConcat(parsers, init, [last]);
    }
  }

  lemma {:induction false} RunStagesEmpty(parsers: seq<Parser>)
    ensures RunStages(parsers, []) == []
    decreases |parsers|
  {
    if parsers != [] {
      RunStagesEmpty(parsers[1..]);
    }
  }

  /**
   * The depth-first chain of ParseWithParsers yields exactly what running the
   * stages one after the other over the single input yields, in the same order.
   */
  lemma {:induction false} ParseWithParsersIsStages(parsers: seq<Parser>, x: ParseResult)
    ensures ParseWithParsers(parsers, x) == RunStages(parsers, [x])
    decreases |parsers|, 0
  {
    if |parsers| == 1 {
      StageOne(parsers[0], x);
      assert parsers[1..] == [];
    } else if |parsers| > 1 {
      StageOne(parsers[0], x);
      ChainEachIsStages(parsers[1..], parsers[0](x));
    }
  }

  /** A chain of two: the outputs of the second parser on each output of the first, in order. */
  lemma TwoParsers(p: Parser, q: Parser, x: ParseResult)
    ensures ParseWithParsers([p, q], x) == Stage(q, p(x))
  {
    ParseWithParsersIsStages([p, q], x);
    StageOne(p, x);
    assert [p, q][1..] == [q];
    assert [q][1..] == [];
    assert RunStages([p, q], [x]) == RunStages([q], p(x));
    assert RunStages([q], p(x)) == RunStages([], Stage(q, p(x)));
  }
}
