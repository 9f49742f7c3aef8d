/** What the depth-first search keeps true between any two steps, stated
    against `order`, the sorted candidate list the search started from:
    - `Ordered`: the stack's words were popped in decreasing position of
      `order`, and every pool only holds words placed before the word that
      was last popped from it, in increasing position;
    - `Exact`: every division the search performs is exact, and a frame's
      code times the codes of the words on the stack up to it is the cipher
      code;
    - `Future`: a description of every list the search can still yield,
      used to show that each yield comes strictly earlier than all the
      previous ones in the lexicographic order of positions. */
module Invariants {
  import opened Base
  import opened Arith
  import opened Encoding
  import opened Lexicon
  import opened Candidates
  import opened Search

  // ---- Positions in the sorted candidate list -------------------------------

  /** A position of `w` in `order` (with `Distinct(order)`, the only one). */
  ghost function IndexOf(order: seq<string>, w: string): (i: nat)
    requires w in order
    ensures i < |order| && order[i] == w
  {
    var i :| 0 <= i < |order| && order[i] == w; i
  }

  /** Every word of `ws` sits in `order` before position `b`. */
  ghost predicate Below(order: seq<string>, ws: seq<string>, b: int)
  {
    forall w :: w in ws ==> w in order && IndexOf(order, w) < b
  }

  /** `ws` lists words of `order` in strictly increasing position. */
  ghost predicate Ascending(order: seq<string>, ws: seq<string>)
  {
    (forall w :: w in ws ==> w in order) &&
    forall i, j :: 0 <= i < j < |ws| ==> IndexOf(order, ws[i]) < IndexOf(order, ws[j])
  }

  /** `ws` lists words of `order` in strictly decreasing position. */
  ghost predicate Descending(order: seq<string>, ws: seq<string>)
  {
    (forall w :: w in ws ==> w in order) &&
    forall i, j :: 0 <= i < j < |ws| ==> IndexOf(order, ws[i]) > IndexOf(order, ws[j])
  }

  /** Words in strictly decreasing position are pairwise different. */
  lemma DescendingDistinct(order: seq<string>, ws: seq<string>)
    requires Descending(order, ws)
    ensures Distinct(ws)
  {
    forall i, j | 0 <= i < j < |ws|
      ensures ws[i] != ws[j]
    {
      assert IndexOf(order, ws[i]) > IndexOf(order, ws[j]);
    }
  }

  /** A prefix of a list without repetitions is in increasing position. */
  lemma PrefixAscending(order: seq<string>, k: nat)
    requires Distinct(order) && k <= |order|
    ensures Ascending(order, order[..k])
  {
    forall i | 0 <= i < k
      ensures IndexOf(order, order[..k][i]) == i
    {
      assert order[..k][i] == order[i];
    }
  }

  /** The rest of an ascending list is ascending and lies after its head. */
  lemma AscendingTail(order: seq<string>, ws: seq<string>)
    requires Ascending(order, ws) && ws != []
    ensures Ascending(order, ws[1..])
    ensures forall w :: w in ws[1..] ==> IndexOf(order, ws[0]) < IndexOf(order, w)
  {
    var tail := ws[1..];
    forall i, j | 0 <= i < j < |tail|
      ensures IndexOf(order, tail[i]) < IndexOf(order, tail[j])
    {
      assert tail[i] == ws[i + 1] && tail[j] == ws[j + 1];
    }
    forall w | w in tail
      ensures IndexOf(order, ws[0]) < IndexOf(order, w)
    {
      var k :| 0 <= k < |tail| && tail[k] == w;
      assert ws[k + 1] == w;
    }
  }

  /** A word before every word of an ascending list can head it. */
  lemma AscendingCons(order: seq<string>, x: string, ws: seq<string>)
    requires x in order && Ascending(order, ws)
    requires forall w :: w in ws ==> IndexOf(order, x) < IndexOf(order, w)
    ensures Ascending(order, [x] + ws)
  {
    var r := [x] + ws;
    forall i, j | 0 <= i < j < |r|
      ensures IndexOf(order, r[i]) < IndexOf(order, r[j])
    {
      assert r[j] == ws[j - 1];
      if i > 0 {
        assert r[i] == ws[i - 1];
      }
    }
  }

  /** Filtering keeps words in increasing position. */
  lemma {:induction false} FilterAscending(order: seq<string>, code: nat, pool: seq<string>, lex: Prdist)
    requires Searchable(lex, pool) && Ascending(order, pool)
    ensures Ascending(order, Filter(code, pool, lex))
    decreases |pool|
  {
    if pool != [] {
      assert forall w :: w in pool[1..] ==> w in pool;
      AscendingTail(order, pool);
      FilterAscending(order, code, pool[1..], lex);
      if Divides(CodeOf(lex, pool[0]), code) {
        AscendingCons(order, pool[0], Filter(code, pool[1..], lex));
      }
    }
  }

  // ---- Ordered --------------------------------------------------------------

  /** The candidates still to plant are a prefix of `order`, which has no
      repetitions. */
  ghost predicate Prefix(order: seq<string>, candidates: seq<string>)
  {
    Distinct(order) && |candidates| <= |order| && candidates == order[..|candidates|]
  }

  /** The words on the stack were taken in decreasing position of `order`. */
  ghost predicate Chain(order: seq<string>, stack: seq<Frame>)
  {
    (forall i :: 0 <= i < |stack| ==> stack[i].word in order) &&
    Descending(order, Words(stack))
  }

  /** The root word is the candidate planted last, just after the remaining
      candidates. */
  ghost predicate Rooted(order: seq<string>, s: State)
  {
    s.stack != [] ==> s.stack[0].word in order && IndexOf(order, s.stack[0].word) == |s.candidates|
  }

  /** Every pool is in increasing position and lies before the frame's own
      word and before the word last popped from it. */
  ghost predicate Pools(order: seq<string>, stack: seq<Frame>)
  {
    (forall i :: 0 <= i < |stack| ==>
       stack[i].word in order && Ascending(order, stack[i].pool) &&
       Below(order, stack[i].pool, IndexOf(order, stack[i].word))) &&
    (forall i :: 1 <= i < |stack| ==>
       stack[i].word in order && Below(order, stack[i - 1].pool, IndexOf(order, stack[i].word)))
  }

  /** The shape of the search state relative to `order`. */
  ghost predicate Ordered(order: seq<string>, s: State)
  {
    Prefix(order, s.candidates) && Chain(order, s.stack) && Rooted(order, s) && Pools(order, s.stack)
  }

  /** Only the top frame can have reached code 1: a frame whose code is 1 is
      popped at the next step. */
  ghost predicate Settled(s: State)
  {
    forall i :: 0 <= i < |s.stack| - 1 ==> s.stack[i].code != 1
  }

  /** A prefix of a descending list is descending. */
  lemma DescendingPrefix(order: seq<string>, ws: seq<string>, k: nat)
    requires Descending(order, ws) && k <= |ws|
    ensures Descending(order, ws[..k])
  {
    forall i, j | 0 <= i < j < k
      ensures IndexOf(order, ws[..k][i]) > IndexOf(order, ws[..k][j])
    {
      assert ws[..k][i] == ws[i] && ws[..k][j] == ws[j];
    }
  }

  lemma ChainPrefix(order: seq<string>, stack: seq<Frame>, k: nat)
    requires Chain(order, stack) && k <= |stack|
    ensures Chain(order, stack[..k])
  {
    DescendingPrefix(order, Words(stack), k);
    assert Words(stack[..k]) == Words(stack)[..k];
  }

  lemma PoolsPrefix(order: seq<string>, stack: seq<Frame>, k: nat)
    requires Pools(order, stack) && k <= |stack|
    ensures Pools(order, stack[..k])
  {
    assert forall i :: 0 <= i < k ==> stack[..k][i] == stack[i];
  }

  /** Popping a frame keeps the shape. */
  lemma PopOrdered(order: seq<string>, lex: Prdist, s: State)
    requires Known(lex, s) && s.stack != [] && Ordered(order, s) && Settled(s)
    ensures Ordered(order, PopFrame(lex, s)) && Settled(PopFrame(lex, s))
  {
    var k := |s.stack| - 1;
    ChainPrefix(order, s.stack, k);
    PoolsPrefix(order, s.stack, k);
    assert k > 0 ==> s.stack[..k][0] == s.stack[0];
    assert forall i :: 0 <= i < k ==> s.stack[..k][i] == s.stack[i];
  }

  /** What is left of an ascending pool once its last word is popped lies
      before that word. */
  lemma PoolRest(order: seq<string>, pool: seq<string>)
    requires pool != [] && Ascending(order, pool)
    ensures Ascending(order, pool[..|pool| - 1])
    ensures Below(order, pool[..|pool| - 1], IndexOf(order, pool[|pool| - 1]))
  {
    var m := |pool|;
    var rest := pool[..m - 1];
    forall w | w in rest
      ensures w in order && IndexOf(order, w) < IndexOf(order, pool[m - 1])
    {
      var k :| 0 <= k < m - 1 && rest[k] == w;
      assert pool[k] == w;
    }
    forall i, j | 0 <= i < j < |rest|
      ensures IndexOf(order, rest[i]) < IndexOf(order, rest[j])
    {
      assert rest[i] == pool[i] && rest[j] == pool[j];
    }
  }

  /** A word placed before the last of a descending list extends it. */
  lemma DescendingPush(order: seq<string>, ws: seq<string>, w: string)
    requires Descending(order, ws) && ws != [] && w in order
    requires IndexOf(order, w) < IndexOf(order, ws[|ws| - 1])
    ensures Descending(order, ws + [w])
  {
    var v := ws + [w];
    forall i, j | 0 <= i < j < |v|
      ensures IndexOf(order, v[i]) > IndexOf(order, v[j])
    {
      if j == |ws| && i < |ws| - 1 {
        assert IndexOf(order, ws[i]) > IndexOf(order, ws[|ws| - 1]);
      }
    }
  }

  /** The popped word lies before the word of the frame it came from. */
  lemma PushChain(order: seq<string>, stack: seq<Frame>, child: Frame)
    requires stack != [] && stack[|stack| - 1].pool != []
    requires Chain(order, stack) && Pools(order, stack)
    requires child.word == stack[|stack| - 1].pool[|stack[|stack| - 1].pool| - 1]
    ensures Chain(order, Pushed(stack, child))
  {
    var n := |stack|;
    var top := stack[n - 1];
    var t := Pushed(stack, child);
    assert child.word in top.pool;
    assert Words(stack)[n - 1] == top.word;
    DescendingPush(order, Words(stack), child.word);
    assert Words(t) == Words(stack) + [child.word];
  }

  /** The rest of the top pool lies before the popped word, and the child's
      pool holds words of that rest, in order. */
  lemma PushPools(order: seq<string>, stack: seq<Frame>, child: Frame)
    requires stack != [] && stack[|stack| - 1].pool != []
    requires Pools(order, stack)
    requires child.word == stack[|stack| - 1].pool[|stack[|stack| - 1].pool| - 1]
    requires Ascending(order, child.pool)
    requires forall w :: w in child.pool ==> w in stack[|stack| - 1].pool[..|stack[|stack| - 1].pool| - 1]
    ensures Pools(order, Pushed(stack, child))
  {
    var n := |stack|;
    var top := stack[n - 1];
    var m := |top.pool|;
    var rest := top.pool[..m - 1];
    var t := Pushed(stack, child);
    PoolRest(order, top.pool);
    assert Below(order, child.pool, IndexOf(order, child.word));
    assert forall i :: 0 <= i < n - 1 ==> t[i] == stack[i];
    assert t[n - 1] == top.(pool := rest) && t[n] == child;
  }

  /** Pushing a child keeps the shape. */
  lemma PushOrdered(order: seq<string>, s: State, child: Frame)
    requires s.stack != [] && s.stack[|s.stack| - 1].pool != []
    requires s.stack[|s.stack| - 1].code != 1
    requires Ordered(order, s) && Settled(s)
    requires child.word == s.stack[|s.stack| - 1].pool[|s.stack[|s.stack| - 1].pool| - 1]
    requires Ascending(order, child.pool)
    requires forall w :: w in child.pool ==> w in s.stack[|s.stack| - 1].pool[..|s.stack[|s.stack| - 1].pool| - 1]
    ensures var t := State(s.candidates, Pushed(s.stack, child));
            Ordered(order, t) && Settled(t)
  {
    PushChain(order, s.stack, child);
    PushPools(order, s.stack, child);
    var t := Pushed(s.stack, child);
    assert t[0].word == s.stack[0].word;
    assert forall i :: 0 <= i < |s.stack| - 1 ==> t[i] == s.stack[i];
  }

  /** Planting the last candidate as a root keeps the shape. */
  lemma RootOrdered(order: seq<string>, s: State, frame: Frame)
    requires s.stack == [] && s.candidates != [] && Ordered(order, s)
    requires frame.word == s.candidates[|s.candidates| - 1]
    requires Ascending(order, frame.pool)
    requires forall w :: w in frame.pool ==> w in s.candidates[..|s.candidates| - 1]
    ensures var t := State(s.candidates[..|s.candidates| - 1], [frame]);
            Ordered(order, t) && Settled(t)
  {
    var k := |s.candidates|;
    var rest := s.candidates[..k - 1];
    assert frame.word == order[k - 1] && rest == order[..k - 1];
    assert Below(order, frame.pool, k - 1) by {
      forall w | w in frame.pool
        ensures IndexOf(order, w) < k - 1
      {
        var i :| 0 <= i < k - 1 && rest[i] == w;
        assert order[i] == w;
      }
    }
    assert Words([frame]) == [frame.word];
  }

  lemma DescendOrdered(order: seq<string>, lex: Prdist, s: State)
    requires Known(lex, s) && s.stack != [] && s.stack[|s.stack| - 1].pool != []
    requires s.stack[|s.stack| - 1].code != 1
    requires Ordered(order, s) && Settled(s)
    ensures Ordered(order, Descend(lex, s)) && Settled(Descend(lex, s))
  {
    var top := s.stack[|s.stack| - 1];
    var m := |top.pool|;
    var rest := top.pool[..m - 1];
    assert forall w :: w in rest ==> w in top.pool;
    var child := ChildFrame(lex, top.code, top.pool[m - 1], rest);
    PoolRest(order, top.pool);
    FilterAscending(order, child.code, rest, lex);
    PushOrdered(order, s, child);
  }

  lemma PlantRootOrdered(order: seq<string>, lex: Prdist, cipherCode: nat, s: State)
    requires Known(lex, s) && s.stack == [] && s.candidates != [] && Ordered(order, s)
    ensures Ordered(order, PlantRoot(lex, cipherCode, s)) && Settled(PlantRoot(lex, cipherCode, s))
  {
    var k := |s.candidates|;
    var rest := s.candidates[..k - 1];
    assert forall w :: w in rest ==> w in s.candidates;
    var frame := ChildFrame(lex, cipherCode, s.candidates[k - 1], rest);
    PrefixAscending(order, k - 1);
    assert rest == order[..k - 1];
    FilterAscending(order, frame.code, rest, lex);
    RootOrdered(order, s, frame);
  }

  // ---- Exact ----------------------------------------------------------------

  /** Every division the search performs is exact: the words still to try
      divide the code they are tried against, and the codes along the stack
      multiply back to the cipher code `n`. */
  ghost predicate Exact(lex: Prdist, n: nat, s: State)
    requires Known(lex, s)
  {
    Dividing(lex, n, s) && Linked(lex, n, s.stack)
  }

  /** The root words divide the cipher code and every pool word divides the
      code of its frame. */
  ghost predicate Dividing(lex: Prdist, n: nat, s: State)
    requires Known(lex, s)
  {
    (forall w :: w in s.candidates ==> Divides(CodeOf(lex, w), n)) &&
    (forall i :: 0 <= i < |s.stack| ==>
       forall w :: w in s.stack[i].pool ==> Divides(CodeOf(lex, w), s.stack[i].code))
  }

  /** Each frame's code times its word's code is the code of the frame
      below, and the root frame's product is the cipher code `n`. */
  ghost predicate Linked(lex: Prdist, n: nat, stack: seq<Frame>)
    requires WellFormed(lex) && forall i :: 0 <= i < |stack| ==> FrameKnown(lex, stack[i])
  {
    (stack != [] ==>
       assert FrameKnown(lex, stack[0]);
       stack[0].code * CodeOf(lex, stack[0].word) == n) &&
    (forall i :: 0 < i < |stack| ==>
       assert FrameKnown(lex, stack[i]);
       stack[i].code * CodeOf(lex, stack[i].word) == stack[i - 1].code)
  }

  /** The child frame of a word that divides the code holds the exact
      quotient, and its pool divides that quotient. */
  lemma ChildExact(lex: Prdist, code: nat, word: string, rest: seq<string>)
    requires WellFormed(lex) && word in lex && word != [] && Searchable(lex, rest)
    requires Divides(CodeOf(lex, word), code)
    ensures var f := ChildFrame(lex, code, word, rest);
            f.code * CodeOf(lex, word) == code &&
            forall w :: w in f.pool ==> Divides(CodeOf(lex, w), f.code)
  {
    ExactQuotient(code, CodeOf(lex, word));
  }

  lemma PopExact(lex: Prdist, n: nat, s: State)
    requires Known(lex, s) && s.stack != [] && Exact(lex, n, s)
    ensures Exact(lex, n, PopFrame(lex, s))
  {
    var t := PopFrame(lex, s);
    assert forall i :: 0 <= i < |t.stack| ==> t.stack[i] == s.stack[i];
  }

  /** Pushing a child whose pool divides its code keeps every pool dividing
      its frame's code. */
  lemma PushDividing(lex: Prdist, n: nat, s: State, child: Frame)
    requires Known(lex, s) && s.stack != [] && s.stack[|s.stack| - 1].pool != []
    requires Known(lex, State(s.candidates, Pushed(s.stack, child)))
    requires FrameKnown(lex, child) && Dividing(lex, n, s)
    requires forall w :: w in child.pool ==> Divides(CodeOf(lex, w), child.code)
    ensures Dividing(lex, n, State(s.candidates, Pushed(s.stack, child)))
  {
    var k := |s.stack|;
    var top := s.stack[k - 1];
    var rest := top.pool[..|top.pool| - 1];
    var t := Pushed(s.stack, child);
    assert forall w :: w in rest ==> w in top.pool;
    assert forall i :: 0 <= i < k - 1 ==> t[i] == s.stack[i];
    assert t[k - 1] == top.(pool := rest) && t[k] == child;
  }

  /** Pushing a child whose code times its word's code is the top frame's
      code extends the chain of exact quotients. */
  lemma PushLinked(lex: Prdist, n: nat, s: State, child: Frame)
    requires Known(lex, s) && s.stack != [] && s.stack[|s.stack| - 1].pool != []
    requires Known(lex, State(s.candidates, Pushed(s.stack, child)))
    requires FrameKnown(lex, child) && Linked(lex, n, s.stack)
    requires child.code * CodeOf(lex, child.word) == s.stack[|s.stack| - 1].code
    ensures Linked(lex, n, Pushed(s.stack, child))
  {
    var k := |s.stack|;
    var top := s.stack[k - 1];
    var rest := top.pool[..|top.pool| - 1];
    var t := Pushed(s.stack, child);
    assert forall w :: w in rest ==> w in top.pool;
    assert forall i :: 0 <= i < k ==> t[i].code == s.stack[i].code && t[i].word == s.stack[i].word;
    assert t[k] == child;
  }

  lemma DescendExact(lex: Prdist, n: nat, s: State)
    requires Known(lex, s) && s.stack != [] && s.stack[|s.stack| - 1].pool != []
    requires Exact(lex, n, s)
    ensures Exact(lex, n, Descend(lex, s))
  {
    var top := s.stack[|s.stack| - 1];
    var m := |top.pool|;
    var rest := top.pool[..m - 1];
    assert forall w :: w in rest ==> w in top.pool;
    var child := ChildFrame(lex, top.code, top.pool[m - 1], rest);
    ChildExact(lex, top.code, top.pool[m - 1], rest);
    PushKnown(lex, s, child);
    PushDividing(lex, n, s, child);
    PushLinked(lex, n, s, child);
  }

  lemma PlantRootExact(lex: Prdist, n: nat, s: State)
    requires Known(lex, s) && s.stack == [] && s.candidates != []
    requires Exact(lex, n, s)
    ensures Exact(lex, n, PlantRoot(lex, n, s))
  {
    var k := |s.candidates|;
    var root, rest := s.candidates[k - 1], s.candidates[..k - 1];
    assert forall w :: w in rest ==> w in s.candidates;
    ChildExact(lex, n, root, rest);
  }

  /** The product of the codes of the words of `ws`. */
  ghost function PathCode(lex: Prdist, ws: seq<string>): (n: nat)
    requires Searchable(lex, ws)
    ensures n >= 1
  {
    if ws == [] then 1
    else
      var init := ws[..|ws| - 1];
      assert forall w :: w in init ==> w in ws;
      PathCode(lex, init) * CodeOf(lex, ws[|ws| - 1])
  }

  lemma PathCodeSnoc(lex: Prdist, ws: seq<string>, w: string)
    requires Searchable(lex, ws) && w in lex && w != []
    ensures Searchable(lex, ws + [w])
    ensures PathCode(lex, ws + [w]) == PathCode(lex, ws) * CodeOf(lex, w)
  {
    assert (ws + [w])[..|ws|] == ws;
  }

  lemma WordsSnoc(stack: seq<Frame>, j: nat)
    requires j < |stack|
    ensures Words(stack[..j + 1]) == Words(stack[..j]) + [stack[j].word]
  {
  }

  /** The words of the first `j + 1` frames times the code of frame `j` give
      back the cipher code. */
  lemma {:induction false} PrefixProduct(lex: Prdist, n: nat, stack: seq<Frame>, j: nat)
    requires WellFormed(lex) && forall i :: 0 <= i < |stack| ==> FrameKnown(lex, stack[i])
    requires Linked(lex, n, stack) && j < |stack|
    ensures Searchable(lex, Words(stack[..j + 1]))
    ensures stack[j].code * PathCode(lex, Words(stack[..j + 1])) == n
  {
    assert FrameKnown(lex, stack[j]);
    WordsSnoc(stack, j);
    if j == 0 {
      assert Words(stack[..0]) == [];
      PathCodeSnoc(lex, [], stack[0].word);
    } else {
      PrefixProduct(lex, n, stack, j - 1);
      var prev := Words(stack[..j]);
      PathCodeSnoc(lex, prev, stack[j].word);
      ChainStep(stack[j].code, CodeOf(lex, stack[j].word), stack[j - 1].code, PathCode(lex, prev), n);
    }
  }

  /** When the top frame's code is 1, the words on the stack multiply to the
      cipher code. */
  lemma StackProduct(lex: Prdist, n: nat, s: State)
    requires Known(lex, s) && Exact(lex, n, s) && s.stack != []
    requires s.stack[|s.stack| - 1].code == 1
    ensures Searchable(lex, Words(s.stack))
    ensures PathCode(lex, Words(s.stack)) == n
  {
    var k := |s.stack|;
    PrefixProduct(lex, n, s.stack, k - 1);
    assert s.stack[..k] == s.stack;
  }

  /** `''.join(ws)`: the letters of all words, in order. */
  function Concat(ws: seq<string>): (r: string)
    ensures forall w :: w in ws ==> multiset(w) <= multiset(r)
  {
    if ws == [] then []
    else
      var init := Concat(ws[..|ws| - 1]);
      assert forall w :: w in ws ==> w in ws[..|ws| - 1] || w == ws[|ws| - 1];
      init + ws[|ws| - 1]
  }

  /** The product of the words' codes is the code of their concatenation. */
  lemma {:induction false} PathCodeLetters(lex: Prdist, ws: seq<string>)
    requires Searchable(lex, ws)
    ensures IsLetters(Concat(ws))
    ensures PathCode(lex, ws) == LetterProduct(Concat(ws))
  {
    if ws != [] {
      var init := ws[..|ws| - 1];
      assert forall w :: w in init ==> w in ws;
      PathCodeLetters(lex, init);
      LetterProductConcat(Concat(init), ws[|ws| - 1]);
    }
  }

  // ---- What can still be yielded ---------------------------------------------

  /** `a` comes before `b` in the lexicographic order of positions in
      `order`: they agree up to some place, where `a`'s word sits earlier. */
  ghost predicate LexBefore(order: seq<string>, a: seq<string>, b: seq<string>)
  {
    exists k :: 0 <= k < |a| && k < |b| && a[..k] == b[..k] &&
                a[k] in order && b[k] in order && IndexOf(order, a[k]) < IndexOf(order, b[k])
  }

  /** `ws` follows the stack up to frame `i` and goes on with a word of that
      frame's pool. */
  ghost predicate Branches(s: State, ws: seq<string>, i: nat)
    requires i < |s.stack|
  {
    i + 1 < |ws| && ws[..i + 1] == Words(s.stack[..i + 1]) && ws[i + 1] in s.stack[i].pool
  }

  /** Every list the search can still yield from `s` is of one of these
      forms: the words on the stack, when the top code is 1; a list starting
      with a remaining candidate; or a list that branches off the stack. */
  ghost predicate Future(s: State, ws: seq<string>)
  {
    (s.stack != [] && s.stack[|s.stack| - 1].code == 1 && ws == Words(s.stack)) ||
    (ws != [] && ws[0] in s.candidates) ||
    (exists i :: 0 <= i < |s.stack| && Branches(s, ws, i))
  }

  lemma WordsPrefix(stack: seq<Frame>, k: nat)
    requires k <= |stack|
    ensures Words(stack[..k]) == Words(stack)[..k]
  {
  }

  /** Dropping a settled top frame only forgets lists. */
  lemma PopFuture(lex: Prdist, s: State)
    requires Known(lex, s) && s.stack != [] && Settled(s)
    ensures forall ws :: Future(PopFrame(lex, s), ws) ==> Future(s, ws)
  {
    var t := PopFrame(lex, s);
    var n := |s.stack|;
    forall ws | Future(t, ws)
      ensures Future(s, ws)
    {
      if t.stack != [] && t.stack[|t.stack| - 1].code == 1 && ws == Words(t.stack) {
        assert false;
      } else if ws != [] && ws[0] in t.candidates {
      } else {
        var i :| 0 <= i < |t.stack| && Branches(t, ws, i);
        assert t.stack[..i + 1] == s.stack[..i + 1];
        assert Branches(s, ws, i);
      }
    }
  }

  /** Pushing a child only narrows what can be yielded: every list through
      the child or the shrunk pool already branched off the old top frame. */
  lemma PushFuture(s: State, child: Frame)
    requires s.stack != [] && s.stack[|s.stack| - 1].pool != []
    requires child.word == s.stack[|s.stack| - 1].pool[|s.stack[|s.stack| - 1].pool| - 1]
    ensures var n, top := |s.stack|, s.stack[|s.stack| - 1];
            var t := State(s.candidates, s.stack[..n - 1] + [top.(pool := top.pool[..|top.pool| - 1]), child]);
            forall ws :: Future(t, ws) ==> Future(s, ws)
  {
    var n := |s.stack|;
    var top := s.stack[n - 1];
    var m := |top.pool|;
    var next, rest := top.pool[m - 1], top.pool[..m - 1];
    var t := State(s.candidates, s.stack[..n - 1] + [top.(pool := rest), child]);
    assert Words(t.stack) == Words(s.stack) + [next];
    assert t.stack[..n] == s.stack[..n - 1] + [top.(pool := rest)];
    assert Words(t.stack[..n]) == Words(s.stack);
    assert s.stack[..n] == s.stack;
    forall ws | Future(t, ws)
      ensures Future(s, ws)
    {
      if child.code == 1 && ws == Words(t.stack) {
        assert ws[..n] == Words(s.stack);
        assert Branches(s, ws, n - 1);
      } else if ws != [] && ws[0] in t.candidates {
      } else {
        var i :| 0 <= i < |t.stack| && Branches(t, ws, i);
        if i < n - 1 {
          assert t.stack[..i + 1] == s.stack[..i + 1];
          assert Branches(s, ws, i);
        } else if i == n - 1 {
          assert ws[n] in top.pool;
          assert Branches(s, ws, n - 1);
        } else {
          assert t.stack[..i + 1] == t.stack;
          assert ws[..n] == ws[..i + 1][..n];
          assert ws[..n] == Words(s.stack);
          assert ws[n] == next;
          assert Branches(s, ws, n - 1);
        }
      }
    }
  }

  lemma DescendFuture(lex: Prdist, s: State)
    requires Known(lex, s) && s.stack != [] && s.stack[|s.stack| - 1].pool != []
    ensures forall ws :: Future(Descend(lex, s), ws) ==> Future(s, ws)
  {
    var top := s.stack[|s.stack| - 1];
    var m := |top.pool|;
    var rest := top.pool[..m - 1];
    assert forall w :: w in rest ==> w in top.pool;
    PushFuture(s, ChildFrame(lex, top.code, top.pool[m - 1], rest));
  }

  /** Planting a root only narrows what can be yielded: every list through
      the root starts with a candidate. */
  lemma PlantRootFuture(lex: Prdist, cipherCode: nat, s: State)
    requires Known(lex, s) && s.stack == [] && s.candidates != []
    ensures forall ws :: Future(PlantRoot(lex, cipherCode, s), ws) ==> Future(s, ws)
  {
    var k := |s.candidates|;
    var root := s.candidates[k - 1];
    var t := PlantRoot(lex, cipherCode, s);
    assert forall w :: w in t.candidates ==> w in s.candidates;
    assert |t.stack| == 1 && t.stack[0].word == root;
    assert Words(t.stack) == [root];
    forall ws | Future(t, ws)
      ensures ws != [] && ws[0] in s.candidates
    {
      if i :| 0 <= i < |t.stack| && Branches(t, ws, i) {
        RootBranch(t, ws, i);
      }
    }
  }

  /** A branch of a one-frame stack starts with that frame's word. */
  lemma RootBranch(t: State, ws: seq<string>, i: nat)
    requires |t.stack| == 1 && i < |t.stack| && Branches(t, ws, i)
    ensures ws != [] && ws[0] == t.stack[0].word
  {
    assert t.stack[..1] == t.stack;
    assert ws[..1][0] == ws[0];
  }

  /** A list that starts with a candidate still to plant comes before the
      stack's words, whose root was planted later. */
  lemma RootBefore(order: seq<string>, s: State, ws: seq<string>)
    requires s.stack != [] && Ordered(order, s)
    requires ws != [] && ws[0] in s.candidates
    ensures LexBefore(order, ws, Words(s.stack))
  {
    var y := Words(s.stack);
    var j :| 0 <= j < |s.candidates| && s.candidates[j] == ws[0];
    assert order[j] == ws[0];
    assert IndexOf(order, ws[0]) == j;
    assert ws[..0] == y[..0];
  }

  /** A list that follows the stack up to frame `i` and goes on with a word
      of that frame's pool comes before the stack's words. */
  lemma BranchBefore(order: seq<string>, s: State, ws: seq<string>, i: nat)
    requires Ordered(order, s) && i + 1 < |s.stack|
    requires i + 1 < |ws| && ws[..i + 1] == Words(s.stack[..i + 1]) && ws[i + 1] in s.stack[i].pool
    ensures LexBefore(order, ws, Words(s.stack))
  {
    var y := Words(s.stack);
    WordsPrefix(s.stack, i + 1);
    assert y[i + 1] == s.stack[i + 1].word;
    assert Below(order, s.stack[i].pool, IndexOf(order, s.stack[i + 1].word));
  }

  /** Everything that can still be yielded after popping a settled top frame
      comes before the words of the stack it was popped from. */
  lemma PopAfter(order: seq<string>, s: State)
    requires s.stack != [] && Ordered(order, s) && Settled(s)
    ensures var t := State(s.candidates, s.stack[..|s.stack| - 1]);
            forall ws :: Future(t, ws) ==> LexBefore(order, ws, Words(s.stack))
  {
    var n := |s.stack|;
    var t := State(s.candidates, s.stack[..n - 1]);
    assert n > 1 ==> t.stack[n - 2] == s.stack[n - 2];
    forall ws | Future(t, ws)
      ensures LexBefore(order, ws, Words(s.stack))
    {
      if ws != [] && ws[0] in t.candidates {
        RootBefore(order, s, ws);
      } else if i :| 0 <= i < |t.stack| && Branches(t, ws, i) {
        PopBranch(order, s, ws, i);
      }
    }
  }

  /** A branch of the popped stack is a branch of the stack before. */
  lemma PopBranch(order: seq<string>, s: State, ws: seq<string>, i: nat)
    requires s.stack != [] && Ordered(order, s) && i < |s.stack| - 1
    requires Branches(State(s.candidates, s.stack[..|s.stack| - 1]), ws, i)
    ensures LexBefore(order, ws, Words(s.stack))
  {
    var t := State(s.candidates, s.stack[..|s.stack| - 1]);
    assert t.stack[..i + 1] == s.stack[..i + 1];
    assert t.stack[i] == s.stack[i];
    BranchBefore(order, s, ws, i);
  }

  // ---- One step, and one resumption -----------------------------------------

  /** The search started from a cipher code that every candidate divides. */
  ghost predicate Consistent(lex: Prdist, order: seq<string>, cipher: EncodeResult)
  {
    Searchable(lex, order) && cipher.Code? &&
    forall w :: w in order ==> Divides(CodeOf(lex, w), cipher.value)
  }

  /** Everything the search keeps true between steps. */
  ghost predicate Inv(lex: Prdist, order: seq<string>, cipher: EncodeResult, s: State)
  {
    Searchable(lex, order) && Known(lex, s) && Ordered(order, s) && Settled(s) &&
    (Consistent(lex, order, cipher) ==> Exact(lex, cipher.value, s))
  }

  /** What a yielded list `ws` satisfies, given the states `s` before and `t`
      after the resumption that yielded it: it is one of the lists `s` could
      yield, nothing `t` can still yield equals it or comes after it, its
      words are lexicon words in strictly decreasing position (so no word is
      used twice), and their codes multiply to the cipher code. */
  ghost predicate Yielded(lex: Prdist, order: seq<string>, cipher: EncodeResult, s: State, t: State, ws: seq<string>)
  {
    ws != [] && Future(s, ws) &&
    (forall f :: Future(t, f) ==> LexBefore(order, f, ws)) &&
    Descending(order, ws) && Searchable(lex, ws) &&
    (Consistent(lex, order, cipher) ==> PathCode(lex, ws) == cipher.value)
  }

  /** The empty state: nothing left to search. */
  lemma EmptyInv(lex: Prdist, order: seq<string>, cipher: EncodeResult)
    requires Searchable(lex, order) && Distinct(order)
    ensures Inv(lex, order, cipher, State([], []))
    ensures forall ws :: !Future(State([], []), ws)
  {
    assert order[..0] == [];
  }

  /** Every list `t` can still yield, `s` could yield too. */
  ghost predicate Narrows(t: State, s: State)
  {
    forall ws :: Future(t, ws) ==> Future(s, ws)
  }
}
