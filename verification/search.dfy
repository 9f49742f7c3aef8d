/** The depth-first search of `generate_anagrams`, as a step relation on the
    generator's local state. A frame `(word, code, pool)` records a chosen
    word, the code of the letters still to be covered once the words of the
    frames below and this one are taken out, and the words still to try after
    it. One step looks at the top frame: it yields when the code is 1, drops
    the frame when its pool is empty, and otherwise pops the last word of the
    pool and pushes a child frame for it. With an empty stack it pops the
    next root from the sorted candidate list. */
module Search {
  import opened Base
  import opened Arith
  import opened Encoding
  import opened Lexicon
  import opened Candidates

  /** One stack element `(branch_word, branch_code, branch_candidates)`. */
  datatype Frame = Frame(word: string, code: nat, pool: seq<string>)

  /** The generator's local variables between two resumptions: what is left
      of the sorted candidate list and the stack of frames. */
  datatype State = State(candidates: seq<string>, stack: seq<Frame>)

  /** What one `next()` on the generator gives: a list of words, the end of
      the iteration, or an exception. */
  datatype Pull = Anagram(words: seq<string>) | Exhausted | Raised(error: Error)

  ghost predicate FrameKnown(lex: Prdist, f: Frame)
  {
    f.word in lex && f.word != [] && Searchable(lex, f.pool)
  }

  /** Every word the search may look up has a numeric code. */
  ghost predicate Known(lex: Prdist, s: State)
  {
    Searchable(lex, s.candidates) &&
    forall i :: 0 <= i < |s.stack| ==> FrameKnown(lex, s.stack[i])
  }

  /** `[word[0] for word in stack]`. */
  function Words(stack: seq<Frame>): seq<string>
  {
    seq(|stack|, i requires 0 <= i < |stack| => stack[i].word)
  }

  /** The words of a stack are those below its top followed by the top's. */
  lemma WordsPop(stack: seq<Frame>)
    requires stack != []
    ensures Words(stack[..|stack| - 1]) + [stack[|stack| - 1].word] == Words(stack)
  {
  }

  // ---- Termination measure -------------------------------------------------

  function Pow2(n: nat): (r: nat)
    ensures r >= 1
  {
    if n == 0 then 1 else 2 * Pow2(n - 1)
  }

  lemma {:induction false} Pow2Monotone(m: nat, n: nat)
    requires m <= n
    ensures Pow2(m) <= Pow2(n)
    decreases n
  {
    if m < n {
      Pow2Monotone(m, n - 1);
    }
  }

  /** An upper bound on the number of frames a pool of `n` words can still
      give rise to (a full binary tree of height `n`). */
  function Weight(n: nat): nat
  {
    2 * Pow2(n) - 1
  }

  lemma WeightSplit(p: nat, q: nat)
    requires 1 <= p && q < p
    ensures Weight(p - 1) + Weight(q) < Weight(p)
  {
    Pow2Monotone(q, p - 1);
  }

  function StackWeight(stack: seq<Frame>): nat
  {
    if stack == [] then 0
    else StackWeight(stack[..|stack| - 1]) + Weight(|stack[|stack| - 1].pool|)
  }

  /** The search's progress measure: every step that neither ends nor yields
      makes it smaller, and so does every yield. */
  function Measure(s: State): nat
  {
    Weight(|s.candidates|) + StackWeight(s.stack)
  }

  lemma StackWeightPush2(below: seq<Frame>, a: Frame, b: Frame)
    ensures StackWeight(below + [a, b]) == StackWeight(below) + Weight(|a.pool|) + Weight(|b.pool|)
  {
    assert (below + [a, b])[..|below| + 1] == below + [a];
    assert (below + [a])[..|below|] == below;
  }

  // ---- One step ------------------------------------------------------------

  /** The frame pushed for `word` when `code` is left to cover and `rest` is
      still to try: the new code is `code / encoded(word)`, and the new pool
      keeps the words of `rest` that divide it. */
  function ChildFrame(lex: Prdist, code: nat, word: string, rest: seq<string>): (f: Frame)
    requires WellFormed(lex) && word in lex && word != [] && Searchable(lex, rest)
    ensures FrameKnown(lex, f) && f.word == word && |f.pool| <= |rest|
  {
    var q := FloorDiv(code, CodeOf(lex, word));
    Frame(word, q, Filter(q, rest, lex))
  }

  /** The stack once its top frame has given up the last word of its pool
      to `child`. */
  function Pushed(stack: seq<Frame>, child: Frame): seq<Frame>
    requires stack != [] && stack[|stack| - 1].pool != []
  {
    var top := stack[|stack| - 1];
    stack[..|stack| - 1] + [top.(pool := top.pool[..|top.pool| - 1]), child]
  }

  /** Giving up the last pool word to a known child keeps every word known. */
  lemma PushKnown(lex: Prdist, s: State, child: Frame)
    requires Known(lex, s) && s.stack != [] && s.stack[|s.stack| - 1].pool != []
    requires FrameKnown(lex, child)
    ensures Known(lex, State(s.candidates, Pushed(s.stack, child)))
  {
    var k := |s.stack|;
    var top := s.stack[k - 1];
    var rest := top.pool[..|top.pool| - 1];
    var t := Pushed(s.stack, child);
    assert forall w :: w in rest ==> w in top.pool;
    assert forall i :: 0 <= i < k - 1 ==> t[i] == s.stack[i];
    assert t[k - 1] == top.(pool := rest) && t[k] == child;
  }

  /** The `else` branch of the inner loop: pop the last word of the top
      frame's pool (`branch_candidates.pop()`, which shrinks that pool in
      place) and push a frame for it whose code is the top code divided by the
      word's code and whose pool is what is left of the top pool, filtered by
      the new code. */
  function Descend(lex: Prdist, s: State): (r: State)
    requires Known(lex, s) && s.stack != [] && s.stack[|s.stack| - 1].pool != []
    ensures Known(lex, r)
    ensures Measure(r) < Measure(s)
  {
    var n := |s.stack|;
    var top, below := s.stack[n - 1], s.stack[..n - 1];
    var m := |top.pool|;
    var next, rest := top.pool[m - 1], top.pool[..m - 1];
    assert forall w :: w in rest ==> w in top.pool;
    var child := ChildFrame(lex, top.code, next, rest);
    StackWeightPush2(below, top.(pool := rest), child);
    WeightSplit(m, |child.pool|);
    PushKnown(lex, s, child);
    State(s.candidates, Pushed(s.stack, child))
  }

  /** The body of the outer loop: pop the last candidate as a new root and
      push its frame, whose pool is the rest of the candidates filtered by the
      code left after the root. */
  function PlantRoot(lex: Prdist, cipherCode: nat, s: State): (r: State)
    requires Known(lex, s) && s.stack == [] && s.candidates != []
    ensures Known(lex, r)
    ensures Measure(r) < Measure(s)
  {
    var k := |s.candidates|;
    var root, rest := s.candidates[k - 1], s.candidates[..k - 1];
    assert forall w :: w in rest ==> w in s.candidates;
    var frame := ChildFrame(lex, cipherCode, root, rest);
    assert StackWeight([frame]) == Weight(|frame.pool|) by {
      assert [frame][..0] == [];
    }
    WeightSplit(k, |frame.pool|);
    State(rest, [frame])
  }

  /** Drop the top frame (`stack.pop()`). */
  function PopFrame(lex: Prdist, s: State): (r: State)
    requires Known(lex, s) && s.stack != []
    ensures Known(lex, r)
    ensures Measure(r) < Measure(s)
  {
    State(s.candidates, s.stack[..|s.stack| - 1])
  }

  /** One iteration of the inner `while stack` loop, or, with an empty stack,
      of the outer `while candidates` loop. The second component is what the
      generator hands out at this step, if anything; `cipher_code / ...` on
      the empty-string code raises `TypeError`, which ends the generator. */
  function Step(cipher: EncodeResult, lex: Prdist, s: State): (r: (State, Option<Pull>))
    requires Known(lex, s)
    ensures Known(lex, r.0)
    ensures r.1.None? || r.1.value.Anagram? ==> Measure(r.0) < Measure(s)
  {
    if s.stack != [] then
      var top := s.stack[|s.stack| - 1];
      if top.code == 1 then
        var t := PopFrame(lex, s);
        (t, Some(Anagram(Words(t.stack) + [top.word])))
      else if top.pool == [] then
        (PopFrame(lex, s), None)
      else
        (Descend(lex, s), None)
    else if s.candidates != [] then
      match cipher
      case Code(c) => (PlantRoot(lex, c, s), None)
      case _ => (State([], []), Some(Raised(TypeError)))
    else
      (s, Some(Exhausted))
  }

  /** Run steps until the generator hands something out: the effect of one
      `next()` call on the suspended generator. */
  function Resume(cipher: EncodeResult, lex: Prdist, s: State): (r: (State, Pull))
    requires Known(lex, s)
    ensures Known(lex, r.0)
    decreases Measure(s)
  {
    var step := Step(cipher, lex, s);
    if step.1.Some? then (step.0, step.1.value) else Resume(cipher, lex, step.0)
  }

  /** A step that hands nothing out leaves the rest of the resumption to
      the state it reaches. */
  lemma ResumeSilentStep(cipher: EncodeResult, lex: Prdist, s: State)
    requires Known(lex, s) && Step(cipher, lex, s).1.None?
    ensures Resume(cipher, lex, s) == Resume(cipher, lex, Step(cipher, lex, s).0)
  {
  }

  /** A step that hands something out ends the resumption. */
  lemma ResumeLastStep(cipher: EncodeResult, lex: Prdist, s: State)
    requires Known(lex, s) && Step(cipher, lex, s).1.Some?
    ensures Resume(cipher, lex, s) == (Step(cipher, lex, s).0, Step(cipher, lex, s).1.value)
  {
  }
}
