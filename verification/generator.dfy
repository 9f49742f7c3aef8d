/** `generate_anagrams` as the iterator it returns: an object holding the
    generator's local variables (`candidates`, `stack`, `cipher_code`)
    whose `Next` runs the body up to the next `yield`, exactly as one
    `next()` on the Python generator does. The first `Next` runs the
    prologue (`build_candidates`, the sort, the cipher code); an exception
    ends the generator, after which every `Next` reports the end. */
module Generator {
  import opened Base
  import opened Arith
  import opened Encoding
  import opened Lexicon
  import opened Candidates
  import opened Search
  import opened Invariants
  import opened Preservation

  /** `sorted(build_candidates(...), key=...)`. The floating-point key
      `weighted_Pr` is replaced by `ranking`, a given arrangement of the
      lexicon words in increasing key; the sorted candidates are the
      candidates in that arrangement. */
  function SortedCandidates(ranking: seq<string>, cands: set<string>): (r: seq<string>)
    ensures forall w :: w in r <==> w in ranking && w in cands
    ensures IsSubsequence(r, ranking)
    ensures Distinct(ranking) ==> Distinct(r)
  {
    if ranking == [] then []
    else
      var rest := SortedCandidates(ranking[1..], cands);
      assert Distinct(ranking) ==> ranking[0] !in ranking[1..] && Distinct(ranking[1..]) by {
        if Distinct(ranking) {
          forall i, j | 0 <= i < j < |ranking[1..]|
            ensures ranking[1..][i] != ranking[1..][j]
          {
            assert ranking[1..][i] == ranking[i + 1] && ranking[1..][j] == ranking[j + 1];
          }
        }
      }
      assert forall w :: w in ranking <==> w == ranking[0] || w in ranking[1..] by {
        assert ranking == [ranking[0]] + ranking[1..];
      }
      if ranking[0] in cands then
        var r := [ranking[0]] + rest;
        assert r[1..] == rest;
        r
      else
        rest
  }

  /** The cipher code the search divides, from the lower-cased letters of
      the input, the same letters `build_candidates` encodes. */
  function CipherCode(text: string): (r: EncodeResult)
    ensures r.Code? <==> InputLetters(text) != []
    ensures r.Code? ==> r.value == LetterProduct(InputLetters(text))
  {
    Encode(InputLetters(text))
  }

  /** `encode(''.join(re.findall('[a-z]+', cipher_text)))` as written: the
      input is not lower-cased, so capital letters are left out. */
  function CipherCodeAsWritten(text: string): (r: EncodeResult)
    ensures r.Code? <==> KeepLetters(text) != []
    ensures r.Code? ==> r.value == LetterProduct(KeepLetters(text))
  {
    Encode(KeepLetters(text))
  }

  /** On an input without capital letters the cipher code as written is
      the corrected one, so everything proved of the generator holds of the
      program as written for such inputs. */
  lemma AsWrittenAgrees(text: string)
    requires forall i :: 0 <= i < |text| ==> !('A' <= text[i] <= 'Z')
    ensures CipherCodeAsWritten(text) == CipherCode(text)
  {
    assert Lower(text) == text by {
      forall i | 0 <= i < |text|
        ensures Lower(text)[i] == text[i]
      {
        assert !('A' <= text[i] <= 'Z');
      }
    }
  }

  /** As written, the cipher code can miss letters that the candidates were
      drawn from: for the input "Ab" the code is that of "b", the candidate
      "a" (from "ab") is divided into it with a remainder, the quotient is 1,
      and ["a"] is yielded although it is not an anagram of the input. */
  lemma UppercaseYieldsNonAnagram()
    ensures var lex := map["a" := Entry(1, Code(2))];
            var cipher := CipherCodeAsWritten("Ab");
            var start := State(["a"], []);
            cipher == Code(3) && CandidateSet("Ab", lex) == {"a"} &&
            Known(lex, start) && Resume(cipher, lex, start).1 == Anagram(["a"]) &&
            multiset(Concat(["a"])) != multiset(InputLetters("Ab"))
  {
    SmallCipher();
    SmallCandidates();
    SmallSearch();
  }

  lemma SmallCipher()
    ensures CipherCodeAsWritten("Ab") == Code(3)
  {
    SmallInput();
    EncodeB();
  }

  lemma EncodeB()
    ensures Encode("b") == Code(3)
  {
    var b: string := "b";
    assert LetterProduct(b) == Prime('b') * LetterProduct([]);
  }

  lemma SmallInput()
    ensures KeepLetters("Ab") == "b" && InputLetters("Ab") == "ab"
  {
    KeepB();
    KeepAb();
    LowerAb();
  }

  lemma KeepB()
    ensures KeepLetters("b") == "b"
  {
    var b: string := "b";
    assert b[1..] == [];
  }

  lemma KeepAb()
    requires KeepLetters("b") == "b"
    ensures KeepLetters("Ab") == "b" && KeepLetters("ab") == "ab"
  {
    var upper, lower: string := "Ab", "ab";
    assert upper[1..] == "b" && lower[1..] == "b";
  }

  lemma LowerAb()
    ensures Lower("Ab") == "ab"
  {
    var upper: string := "Ab";
    assert Lower(upper)[0] == 'a' && Lower(upper)[1] == 'b';
  }

  lemma SmallCandidates()
    ensures CandidateSet("Ab", map["a" := Entry(1, Code(2))]) == {"a"}
    ensures multiset(Concat(["a"])) != multiset(InputLetters("Ab"))
  {
    SmallInput();
    SmallSet("Ab", map["a" := Entry(1, Code(2))]);
    assert Concat(["a"]) == "a";
    assert 'b' in multiset(InputLetters("Ab"));
  }

  lemma SmallSet(text: string, lex: Prdist)
    requires InputLetters(text) == "ab" && lex == map["a" := Entry(1, Code(2))]
    ensures CandidateSet(text, lex) == {"a"}
  {
    var a, ab: string := "a", "ab";
    assert ab == a + "b";
    assert multiset(a) <= multiset(ab);
    assert a in CandidateSet(text, lex);
    assert forall w :: w in CandidateSet(text, lex) ==> w in lex;
  }

  lemma SmallSearch()
    ensures var lex := map["a" := Entry(1, Code(2))];
            Known(lex, State(["a"], [])) && Resume(Code(3), lex, State(["a"], [])).1 == Anagram(["a"])
  {
    var lex := map["a" := Entry(1, Code(2))];
    assert LetterProduct("a") == 2;
    assert WellFormed(lex);
    var start, planted := State(["a"], []), State([], [Frame("a", 1, [])]);
    assert FloorDiv(3, 2) == 1;
    assert Step(Code(3), lex, start) == (planted, None);
    ResumeSilentStep(Code(3), lex, start);
    assert planted.stack[..0] == [] && Words([]) == [];
    assert Words(planted.stack[..0]) + ["a"] == ["a"];
    assert Step(Code(3), lex, planted) == (State([], []), Some(Anagram(["a"])));
    ResumeLastStep(Code(3), lex, planted);
  }

  /** With the cipher code taken from the letters `build_candidates` used,
      every sorted candidate divides it: the search starts consistent. */
  lemma LaunchConsistent(text: string, lex: Prdist, ranking: seq<string>)
    requires WellFormed(lex) && !CandidatesRaise(text, lex)
    ensures var order := SortedCandidates(ranking, CandidateSet(text, lex));
            Searchable(lex, order) && (order != [] ==> Consistent(lex, order, CipherCode(text)))
  {
    var cands := CandidateSet(text, lex);
    var order := SortedCandidates(ranking, cands);
    var letters := InputLetters(text);
    assert forall w :: w in order ==> w in cands;
    if order != [] {
      assert order[0] in cands;
      forall w | w in order
        ensures Divides(CodeOf(lex, w), LetterProduct(letters))
      {
        SubMultisetDivides(w, letters);
      }
    }
  }

  /** A list whose codes multiply to the cipher code spells exactly the
      letters of the input. */
  lemma ExactCover(lex: Prdist, text: string, ws: seq<string>)
    requires Searchable(lex, ws) && CipherCode(text).Code?
    requires PathCode(lex, ws) == CipherCode(text).value
    ensures multiset(Concat(ws)) == multiset(InputLetters(text))
  {
    PathCodeLetters(lex, ws);
    SameCodeIffAnagram(Concat(ws), InputLetters(text));
  }

  /** No list comes before itself. */
  lemma LexBeforeIrreflexive(order: seq<string>, ws: seq<string>)
    ensures !LexBefore(order, ws, ws)
  {
  }

  /** The search may start from the sorted candidate list. */
  lemma StartInv(lex: Prdist, order: seq<string>, cipher: EncodeResult)
    requires Searchable(lex, order) && Distinct(order)
    ensures Inv(lex, order, cipher, State(order, []))
  {
    assert order[..|order|] == order;
  }

  /** What holds of a generator whose prologue has run, with `s` its local
      state: the search invariant, a consistent start, and every list still
      to come placed before each list already handed out. */
  ghost predicate Running(lex: Prdist, text: string, cipher: EncodeResult, order: seq<string>,
                          yielded: seq<seq<string>>, s: State)
  {
    cipher == CipherCode(text) && Inv(lex, order, cipher, s) &&
    (forall w :: w in order ==> w in CandidateSet(text, lex)) &&
    (order != [] ==> Consistent(lex, order, cipher)) &&
    (forall y, f :: y in yielded && Future(s, f) ==> LexBefore(order, f, y))
  }

  /** A list handed out from a running generator is new: everything that
      could still come was placed before each earlier list, and no list is
      placed before itself. */
  lemma HandedOutOnce(lex: Prdist, text: string, cipher: EncodeResult, order: seq<string>,
                      yielded: seq<seq<string>>, s: State, t: State, ws: seq<string>)
    requires Running(lex, text, cipher, order, yielded, s)
    requires Inv(lex, order, cipher, t) && Yielded(lex, order, cipher, s, t, ws)
    requires forall f :: Future(t, f) ==> Future(s, f)
    ensures ws !in yielded
    ensures Running(lex, text, cipher, order, yielded + [ws], t)
  {
    forall y | y in yielded
      ensures ws != y
    {
      LexBeforeIrreflexive(order, y);
    }
  }

  /** A list handed out from a running generator is made of distinct
      candidate words that together spell exactly the letters of the
      input. */
  lemma HandedOutAnagram(lex: Prdist, text: string, cipher: EncodeResult, order: seq<string>,
                         s: State, t: State, ws: seq<string>)
    requires cipher == CipherCode(text) && Searchable(lex, order)
    requires forall w :: w in order ==> w in CandidateSet(text, lex)
    requires order != [] ==> Consistent(lex, order, cipher)
    requires Yielded(lex, order, cipher, s, t, ws)
    ensures Distinct(ws)
    ensures forall w :: w in ws ==> w in lex && w in CandidateSet(text, lex)
    ensures multiset(Concat(ws)) == multiset(InputLetters(text))
  {
    DescendingDistinct(order, ws);
    assert ws[0] in order;
    ExactCover(lex, text, ws);
  }

  /** One resumption of a running generator keeps it running and hands out
      a list that was not handed out before, made of distinct candidate
      words that together spell exactly the letters of the input; when it
      hands out nothing, the generator is finished. */
  lemma Resumed(lex: Prdist, text: string, cipher: EncodeResult, order: seq<string>,
                yielded: seq<seq<string>>, s: State)
    requires Running(lex, text, cipher, order, yielded, s)
    ensures var (t, p) := Resume(cipher, lex, s);
            (p.Anagram? ==> Running(lex, text, cipher, order, yielded + [p.words], t)) &&
            (!p.Anagram? ==> Running(lex, text, cipher, order, yielded, t) && t == State([], [])) &&
            (p.Anagram? ==>
               p.words != [] && p.words !in yielded && Distinct(p.words) &&
               (forall w :: w in p.words ==> w in lex && w in CandidateSet(text, lex)) &&
               multiset(Concat(p.words)) == multiset(InputLetters(text)))
  {
    ResumeKeeps(lex, order, cipher, s);
    var (t, p) := Resume(cipher, lex, s);
    if p.Anagram? {
      HandedOutOnce(lex, text, cipher, order, yielded, s, t, p.words);
      HandedOutAnagram(lex, text, cipher, order, s, t, p.words);
    } else {
      EmptyInv(lex, order, cipher);
    }
  }

  /** A running state holds only lexicon words and their codes. */
  lemma RunningKnown(lex: Prdist, text: string, cipher: EncodeResult, order: seq<string>,
                     yielded: seq<seq<string>>, s: State)
    requires Running(lex, text, cipher, order, yielded, s)
    ensures Known(lex, s)
  {
  }

  /** The state a resumption reaches, with the list it hands out recorded,
      is a running state again. The cipher code and the sorted list, which
      a resumption leaves alone, are given as read before it (`cipher`,
      `order`) and after it (`cipher'`, `order'`). */
  lemma Advanced(lex: Prdist, text: string, cipher: EncodeResult, order: seq<string>,
                 handedOut: seq<seq<string>>, s: State, t: State, p: Pull, yielded: seq<seq<string>>,
                 cipher': EncodeResult, order': seq<string>)
    requires Running(lex, text, cipher, order, handedOut, s)
    requires (t, p) == Resume(cipher, lex, s)
    requires yielded == if p.Anagram? then handedOut + [p.words] else handedOut
    requires cipher' == cipher && order' == order
    ensures Running(lex, text, cipher', order', yielded, t)
    ensures !p.Anagram? ==> t == State([], [])
    ensures p.Anagram? ==>
              p.words != [] && p.words !in handedOut && Distinct(p.words) &&
              (forall w :: w in p.words ==> w in lex && w in CandidateSet(text, lex)) &&
              multiset(Concat(p.words)) == multiset(InputLetters(text))
  {
    Resumed(lex, text, cipher, order, handedOut, s);
  }

  class AnagramGenerator {
    const lexicon: Prdist
    const text: string
    const ranking: seq<string>
    /** Whether the prologue has run (the first `next()` has been called). */
    var started: bool
    var cipher: EncodeResult
    var candidates: seq<string>
    var stack: seq<Frame>
    /** The sorted candidate list as the prologue left it. */
    ghost var order: seq<string>
    /** Every list handed out so far, in order. */
    ghost var yielded: seq<seq<string>>

    ghost predicate Valid()
      reads this
    {
      WellFormed(lexicon) && Distinct(ranking) && (forall w :: w in ranking <==> w in lexicon) &&
      (!started ==> candidates == [] && stack == [] && order == [] && yielded == []) &&
      (started ==> Running(lexicon, text, cipher, order, yielded, State(candidates, stack)))
    }

    /** `generate_anagrams(cipher_text)`: creating the generator runs none
        of its body. */
    constructor (text: string, lexicon: Prdist, ranking: seq<string>)
      requires WellFormed(lexicon) && Distinct(ranking) && forall w :: w in ranking <==> w in lexicon
      ensures Valid() && !started
      ensures this.text == text && this.lexicon == lexicon && this.ranking == ranking
      ensures yielded == []
    {
      this.text := text;
      this.lexicon := lexicon;
      this.ranking := ranking;
      started := false;
      cipher := Blank;
      candidates, stack := [], [];
      order, yielded := [], [];
    }

    /** The prologue of the generator body, run by the first `next()`:
        `build_candidates` (which may raise), the sort, the cipher code. */
    method Launch() returns (raised: Option<Error>)
      requires Valid() && !started
      modifies this
      ensures started && cipher == CipherCode(text) && stack == [] && yielded == []
      ensures raised.Some? <==> CandidatesRaise(text, lexicon)
      ensures raised.Some? ==> raised.value == TypeError && candidates == [] && Valid()
      ensures raised.None? ==>
                candidates == SortedCandidates(ranking, CandidateSet(text, lexicon)) &&
                order == candidates && Running(lexicon, text, cipher, order, [], State(candidates, stack))
      ensures raised.None? ==> WellFormed(lexicon) && Distinct(ranking) && (forall w :: w in ranking <==> w in lexicon)
    {
      started := true;
      cipher := CipherCode(text);
      var built := BuildCandidates(text, lexicon);
      if built.Failure? {
        EmptyInv(lexicon, [], cipher);
        return Some(built.error);
      }
      candidates := SortedCandidates(ranking, built.value);
      order := candidates;
      LaunchConsistent(text, lexicon, ranking);
      StartInv(lexicon, order, cipher);
      assert forall w :: w in order ==> w in CandidateSet(text, lexicon);
      return None;
    }

    /** One `next()`: run the generator body up to its next `yield` (an
        anagram), its end (`StopIteration`) or an exception. */
    method Next() returns (p: Pull)
      requires Valid()
      modifies this
      ensures Valid() && started
      ensures old(started) ==>
                cipher == old(cipher) && order == old(order) &&
                (State(candidates, stack), p) == Resume(cipher, lexicon, old(State(candidates, stack)))
      ensures !old(started) && CandidatesRaise(text, lexicon) ==>
                p == Raised(TypeError) && State(candidates, stack) == State([], [])
      ensures !old(started) && !CandidatesRaise(text, lexicon) ==>
                (State(candidates, stack), p) == Resume(cipher, lexicon, State(SortedCandidates(ranking, CandidateSet(text, lexicon)), []))
      ensures p.Anagram? ==> yielded == old(yielded) + [p.words]
      ensures !p.Anagram? ==> yielded == old(yielded) && State(candidates, stack) == State([], [])
      ensures p.Anagram? ==>
                p.words != [] && p.words !in old(yielded) && Distinct(p.words) &&
                (forall w :: w in p.words ==> w in lexicon && w in CandidateSet(text, lexicon)) &&
                multiset(Concat(p.words)) == multiset(InputLetters(text))
    {
      if !started {
        var raised := Launch();
        if raised.Some? {
          return Raised(raised.value);
        }
      }
      p := Continue();
      RunningValid();
    }

    /** A started generator whose state is running is valid. */
    lemma RunningValid()
      requires WellFormed(lexicon) && Distinct(ranking) && (forall w :: w in ranking <==> w in lexicon)
      requires started && Running(lexicon, text, cipher, order, yielded, State(candidates, stack))
      ensures Valid()
    {
    }

    /** A `next()` once the prologue has run. */
    method Continue() returns (p: Pull)
      requires Valid() && started
      modifies this`candidates, this`stack, this`yielded
      ensures Running(lexicon, text, cipher, order, yielded, State(candidates, stack))
      ensures (State(candidates, stack), p) == Resume(cipher, lexicon, old(State(candidates, stack)))
      ensures p.Anagram? ==> yielded == old(yielded) + [p.words]
      ensures !p.Anagram? ==> yielded == old(yielded) && State(candidates, stack) == State([], [])
      ensures p.Anagram? ==>
                p.words != [] && p.words !in old(yielded) && Distinct(p.words) &&
                (forall w :: w in p.words ==> w in lexicon && w in CandidateSet(text, lexicon)) &&
                multiset(Concat(p.words)) == multiset(InputLetters(text))
    {
      ghost var before, handedOut, code, sorted := State(candidates, stack), yielded, cipher, order;
      RunningKnown(lexicon, text, code, sorted, handedOut, before);
      p := RunToNextYield();
      if p.Anagram? {
        yielded := yielded + [p.words];
      }
      Advanced(lexicon, text, code, sorted, handedOut, before, State(candidates, stack), p, yielded, cipher, order);
    }

    /** The two nested `while` loops of the generator body, entered where
        the last `yield` left them (or at the top after the prologue) and
        left at the next `yield`, at the end, or at an exception. */
    method RunToNextYield() returns (p: Pull)
      requires Known(lexicon, State(candidates, stack))
      modifies this`candidates, this`stack
      ensures (State(candidates, stack), p) == Resume(cipher, lexicon, old(State(candidates, stack)))
    {
      ghost var result := Resume(cipher, lexicon, State(candidates, stack));
      while true
        invariant Known(lexicon, State(candidates, stack))
        invariant Resume(cipher, lexicon, State(candidates, stack)) == result
        decreases Measure(State(candidates, stack))
      {
        ghost var entry := Measure(State(candidates, stack));
        while stack != []
          invariant Known(lexicon, State(candidates, stack))
          invariant Resume(cipher, lexicon, State(candidates, stack)) == result
          invariant Measure(State(candidates, stack)) <= entry
          decreases Measure(State(candidates, stack))
        {
          ghost var before := State(candidates, stack);
          var n := |stack|;
          var top := stack[n - 1];
          if top.code == 1 {
            stack := stack[..n - 1];
            p := Anagram(Words(stack) + [top.word]);
            assert Step(cipher, lexicon, before) == (State(candidates, stack), Some(p));
            ResumeLastStep(cipher, lexicon, before);
            return;
          } else if top.pool == [] {
            stack := stack[..n - 1];
            assert Step(cipher, lexicon, before) == (State(candidates, stack), None);
          } else {
            PushChild();
            assert Step(cipher, lexicon, before) == (State(candidates, stack), None);
          }
          ResumeSilentStep(cipher, lexicon, before);
        }
        ghost var before := State(candidates, stack);
        if candidates == [] {
          p := Exhausted;
          assert Step(cipher, lexicon, before) == (State(candidates, stack), Some(p));
          ResumeLastStep(cipher, lexicon, before);
          return;
        }
        if !cipher.Code? {
          candidates := [];
          p := Raised(TypeError);
          assert Step(cipher, lexicon, before) == (State(candidates, stack), Some(p));
          ResumeLastStep(cipher, lexicon, before);
          return;
        }
        PlantNextRoot();
        assert Step(cipher, lexicon, before) == (State(candidates, stack), None);
        ResumeSilentStep(cipher, lexicon, before);
      }
    }

    /** The `else` branch of the inner loop: `branch_candidates.pop()` takes
        the last word of the top frame's pool, and a frame for it is pushed
        whose code is `branch_code / encoded(word)` and whose pool is the
        rest of the top pool filtered by that code. */
    method PushChild()
      requires Known(lexicon, State(candidates, stack))
      requires stack != [] && stack[|stack| - 1].pool != []
      modifies this`stack
      ensures State(candidates, stack) == Descend(lexicon, old(State(candidates, stack)))
    {
      var n := |stack|;
      var top := stack[n - 1];
      var m := |top.pool|;
      var next, rest := top.pool[m - 1], top.pool[..m - 1];
      assert forall w :: w in rest ==> w in top.pool;
      var code := FloorDiv(top.code, CodeOf(lexicon, next));
      stack := stack[..n - 1] + [top.(pool := rest), Frame(next, code, Filter(code, rest, lexicon))];
    }

    /** The body of the outer loop: `candidates.pop()` takes the next root,
        and its frame is pushed onto the empty stack with the code
        `cipher_code / encoded(root)` and the remaining candidates filtered
        by it. */
    method PlantNextRoot()
      requires Known(lexicon, State(candidates, stack))
      requires stack == [] && candidates != [] && cipher.Code?
      modifies this`candidates, this`stack
      ensures State(candidates, stack) == PlantRoot(lexicon, cipher.value, old(State(candidates, stack)))
    {
      var k := |candidates|;
      var root, rest := candidates[k - 1], candidates[..k - 1];
      assert forall w :: w in rest ==> w in candidates;
      candidates := rest;
      var code := FloorDiv(cipher.value, CodeOf(lexicon, root));
      stack := [Frame(root, code, Filter(code, candidates, lexicon))];
    }
  }
}
