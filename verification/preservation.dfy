/** Each step of the search, and so each resumption of the generator, keeps
    the invariants of module `Invariants`, only narrows the set of lists that
    can still be yielded, and yields only lists that satisfy `Yielded`. */
module Preservation {
  import opened Base
  import opened Encoding
  import opened Lexicon
  import opened Candidates
  import opened Search
  import opened Invariants

  /** The yielding branch: the top frame's code is 1, so the words of the
      whole stack are handed out and the frame is popped. */
  lemma YieldKeeps(lex: Prdist, order: seq<string>, cipher: EncodeResult, s: State)
    requires Inv(lex, order, cipher, s) && s.stack != [] && s.stack[|s.stack| - 1].code == 1
    ensures var t := PopFrame(lex, s);
            Inv(lex, order, cipher, t) && Narrows(t, s) &&
            Yielded(lex, order, cipher, s, t, Words(t.stack) + [s.stack[|s.stack| - 1].word])
  {
    WordsPop(s.stack);
    PopOrdered(order, lex, s);
    PopFuture(lex, s);
    PopAfter(order, s);
    assert Future(s, Words(s.stack));
    if Consistent(lex, order, cipher) {
      PopExact(lex, cipher.value, s);
      StackProduct(lex, cipher.value, s);
    }
  }

  /** The branch that drops a frame whose pool is used up. */
  lemma DropKeeps(lex: Prdist, order: seq<string>, cipher: EncodeResult, s: State)
    requires Inv(lex, order, cipher, s) && s.stack != [] && s.stack[|s.stack| - 1].code != 1
    ensures var t := PopFrame(lex, s);
            Inv(lex, order, cipher, t) && Narrows(t, s)
  {
    PopOrdered(order, lex, s);
    PopFuture(lex, s);
    if Consistent(lex, order, cipher) {
      PopExact(lex, cipher.value, s);
    }
  }

  /** The branch that pushes a child for the last word of the top pool. */
  lemma DescendKeeps(lex: Prdist, order: seq<string>, cipher: EncodeResult, s: State)
    requires Inv(lex, order, cipher, s) && s.stack != []
    requires s.stack[|s.stack| - 1].code != 1 && s.stack[|s.stack| - 1].pool != []
    ensures var t := Descend(lex, s);
            Inv(lex, order, cipher, t) && Narrows(t, s)
  {
    DescendOrdered(order, lex, s);
    DescendFuture(lex, s);
    if Consistent(lex, order, cipher) {
      DescendExact(lex, cipher.value, s);
    }
  }

  /** The branch that plants the next root. */
  lemma PlantKeeps(lex: Prdist, order: seq<string>, cipher: EncodeResult, s: State)
    requires Inv(lex, order, cipher, s) && s.stack == [] && s.candidates != [] && cipher.Code?
    ensures var t := PlantRoot(lex, cipher.value, s);
            Inv(lex, order, cipher, t) && Narrows(t, s)
  {
    PlantRootOrdered(order, lex, cipher.value, s);
    PlantRootFuture(lex, cipher.value, s);
    if Consistent(lex, order, cipher) {
      PlantRootExact(lex, cipher.value, s);
    }
  }

  /** One step keeps the invariant and only narrows what can be yielded. */
  lemma StepKeeps(lex: Prdist, order: seq<string>, cipher: EncodeResult, s: State)
    requires Inv(lex, order, cipher, s)
    ensures var t := Step(cipher, lex, s).0;
            Inv(lex, order, cipher, t) && Narrows(t, s)
  {
    if s.stack != [] {
      var top := s.stack[|s.stack| - 1];
      if top.code == 1 {
        YieldKeeps(lex, order, cipher, s);
      } else if top.pool == [] {
        DropKeeps(lex, order, cipher, s);
      } else {
        DescendKeeps(lex, order, cipher, s);
      }
    } else if s.candidates != [] {
      if cipher.Code? {
        PlantKeeps(lex, order, cipher, s);
      } else {
        EmptyInv(lex, order, cipher);
      }
    }
  }

  /** A list handed out by one step satisfies `Yielded`; a step that hands
      out anything else leaves the empty state. */
  lemma StepHandsOut(lex: Prdist, order: seq<string>, cipher: EncodeResult, s: State)
    requires Inv(lex, order, cipher, s)
    ensures var (t, p) := Step(cipher, lex, s);
            (p.Some? && p.value.Anagram? ==> Yielded(lex, order, cipher, s, t, p.value.words)) &&
            (p.Some? && !p.value.Anagram? ==> t == State([], []))
  {
    if s.stack != [] && s.stack[|s.stack| - 1].code == 1 {
      YieldKeeps(lex, order, cipher, s);
    }
  }

  /** One resumption keeps the invariant, only narrows what can be yielded,
      strictly decreases the measure when it yields, and otherwise ends in
      the empty state. */
  lemma {:induction false} ResumeKeeps(lex: Prdist, order: seq<string>, cipher: EncodeResult, s: State)
    requires Inv(lex, order, cipher, s)
    ensures var (t, p) := Resume(cipher, lex, s);
            Inv(lex, order, cipher, t) && Narrows(t, s) &&
            (p.Anagram? ==> Measure(t) < Measure(s) && Yielded(lex, order, cipher, s, t, p.words)) &&
            (!p.Anagram? ==> t == State([], []))
    decreases Measure(s)
  {
    StepKeeps(lex, order, cipher, s);
    StepHandsOut(lex, order, cipher, s);
    var step := Step(cipher, lex, s);
    if step.1.None? {
      ResumeKeeps(lex, order, cipher, step.0);
    }
  }
}
