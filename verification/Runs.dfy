/** Runs put together from parts: reads in pieces, and one run after another. */
module Runs {
  import opened Bytes
  import opened RawInput
  import opened ByteFramer

  function Pushes(pieces: seq<bytes>): seq<Op> {
    if pieces == [] then [] else [PushBytes(pieces[0])] + Pushes(pieces[1..])
  }

  /** One outcome after another. */
  function Glue(first: Outcome, later: Outcome): Outcome {
    Outcome(first.chunks + later.chunks, later.framer)
  }

  lemma RunFirst(s: Framer, op: Op, ops: seq<Op>, key: KeyParser)
    ensures var first := Apply(s, op, key); Run(s, [op] + ops, key) == Glue(first, Run(first.framer, ops, key))
  {
    assert ([op] + ops)[1..] == ops;
    hide Apply;
  }

  lemma GlueRegroup(a: Outcome, b: Outcome, c: Outcome)
    ensures Glue(Glue(a, b), c) == Glue(a, Glue(b, c))
  {}

  lemma NoOps(s: Framer, ops: seq<Op>, key: KeyParser)
    ensures Run(s, [], key) == Outcome([], s)
    ensures Run(s, [] + ops, key) == Glue(Outcome([], s), Run(s, ops, key))
  {
    assert [] + ops == ops;
    hide Apply;
    var later := Run(s, ops, key);
    assert [] + later.chunks == later.chunks;
  }

  lemma {:induction false} RunAppend(s: Framer, a: seq<Op>, b: seq<Op>, key: KeyParser)
    ensures var first := Run(s, a, key); Run(s, a + b, key) == Glue(first, Run(first.framer, b, key))
    decreases |a|
  {
    hide Run;
    hide Apply;
    hide Glue;
    if a == [] {
      NoOps(s, b, key);
    } else {
      var first := Apply(s, a[0], key);
      var rest := Run(first.framer, a[1..], key);
      RunAppend(first.framer, a[1..], b, key);
      RunFirst(s, a[0], a[1..], key);
      RunFirst(s, a[0], a[1..] + b, key);
      assert a == [a[0]] + a[1..] && a + b == [a[0]] + (a[1..] + b);
      GlueRegroup(first, rest, Run(rest.framer, b, key));
      GlueEnds(first, rest);
    }
  }

  lemma GlueEnds(first: Outcome, later: Outcome)
    ensures Glue(first, later).framer == later.framer
  {}

  lemma {:induction false} RunPushes(s: Framer, pieces: seq<bytes>, key: KeyParser)
    ensures Run(s, Pushes(pieces), key) == PushAll(s, pieces, key)
    decreases |pieces|
  {
    hide DrainAvailableChunks;
    if pieces != [] {
      RunPushes(Push(s, pieces[0], key).framer, pieces[1..], key);
      RunFirst(s, PushBytes(pieces[0]), Pushes(pieces[1..]), key);
    }
  }

  /** A run that starts without a chunk is the run that goes on from where it ends. */
  lemma SilentStart(s: Framer, a: seq<Op>, t: Framer, b: seq<Op>, key: KeyParser)
    requires Run(s, a, key) == Outcome([], t)
    ensures Run(s, a + b, key) == Run(t, b, key)
  {
    hide Run;
    RunAppend(s, a, b, key);
    var later := Run(t, b, key);
    assert [] + later.chunks == later.chunks;
  }
}
