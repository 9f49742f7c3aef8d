/** The candidate finder: keeping the words whose code divides a target code,
    either from a given pool (`get_candidates`) or from the whole lexicon
    against the code of an input phrase (`build_candidates`). */
module Candidates {
  import opened Base
  import opened Arith
  import opened Encoding
  import opened Lexicon

  /** Every word of `ws` is a non-empty lexicon word, so `encoded` gives it a
      number. */
  ghost predicate Searchable(lex: Prdist, ws: seq<string>)
  {
    WellFormed(lex) && forall w :: w in ws ==> w in lex && w != []
  }

  /** `a` is `b` with some elements left out, the rest in the same order. */
  predicate IsSubsequence<T(==)>(a: seq<T>, b: seq<T>)
    decreases |b|
  {
    a == [] ||
    (b != [] && ((a[0] == b[0] && IsSubsequence(a[1..], b[1..])) || IsSubsequence(a, b[1..])))
  }

  /** `[word for word in pool if code % LEXICON.encoded(word) == 0]` for a
      numeric code: the pool words whose code divides `code`, in pool order,
      each as often as in the pool. */
  function Filter(code: nat, pool: seq<string>, lex: Prdist): (r: seq<string>)
    requires Searchable(lex, pool)
    ensures forall w :: w in r <==> w in pool && Divides(CodeOf(lex, w), code)
    ensures forall w :: w in pool ==>
              multiset(r)[w] == if Divides(CodeOf(lex, w), code) then multiset(pool)[w] else 0
    ensures IsSubsequence(r, pool)
    ensures |r| <= |pool|
  {
    if pool == [] then []
    else
      assert pool == [pool[0]] + pool[1..];
      assert forall w :: w in pool[1..] ==> w in pool;
      var rest := Filter(code, pool[1..], lex);
      assert forall w :: w !in pool[1..] ==> multiset(rest)[w] == 0;
      if Divides(CodeOf(lex, pool[0]), code) then
        assert ([pool[0]] + rest)[1..] == rest;
        [pool[0]] + rest
      else
        rest
  }

  /** Filtering by the code of a text keeps exactly the pool words whose
      letters occur in the text, with multiplicity. */
  lemma FilterBySubMultiset(letters: string, pool: seq<string>, lex: Prdist)
    requires IsLetters(letters) && Searchable(lex, pool)
    ensures forall w :: w in Filter(LetterProduct(letters), pool, lex) <==>
                        w in pool && multiset(w) <= multiset(letters)
  {
    forall w | w in pool
      ensures Divides(CodeOf(lex, w), LetterProduct(letters)) <==> multiset(w) <= multiset(letters)
    {
      SubMultisetIffDivides(w, letters);
    }
  }

  /** The first argument of `get_candidates`: a code, or a string that is
      encoded first. */
  datatype Target = Number(n: nat) | Text(s: string)

  /** The comprehension of `get_candidates`, element by element: each pool
      word is looked up in the lexicon (`KeyError` when it is missing) and
      its code taken modulo; a `%` with the empty-string code `''` on either
      side raises `TypeError`. */
  function Scan(code: EncodeResult, pool: seq<string>, lex: Prdist): (r: Result<seq<string>>)
    requires WellFormed(lex) && !code.Unmapped?
    ensures r.Failure? <==> pool != [] && (code.Blank? || exists w :: w in pool && (w !in lex || w == []))
    ensures r.Failure? && (forall w :: w in pool ==> w in lex) ==> r.error == TypeError
    ensures r.Failure? && code.Code? && (forall w :: w in pool ==> w != []) ==> r.error == KeyError
    ensures r.Success? ==> Searchable(lex, pool)
    ensures r.Success? && code.Code? ==> r.value == Filter(code.value, pool, lex)
    ensures r.Success? && code.Blank? ==> r.value == []
  {
    if pool == [] then Success([])
    else
      assert pool == [pool[0]] + pool[1..];
      assert pool[0] in pool && forall w :: w in pool[1..] ==> w in pool;
      if pool[0] !in lex then Failure(KeyError)
      else if code.Blank? || pool[0] == [] then Failure(TypeError)
      else
        match Scan(code, pool[1..], lex)
        case Failure(e) => Failure(e)
        case Success(rest) =>
          Success(if Divides(CodeOf(lex, pool[0]), code.value) then [pool[0]] + rest else rest)
  }

  /** `get_candidates(code, pool)`: a string target is encoded first (a
      character outside a-z raises `KeyError`), then the pool is scanned. */
  function GetCandidates(target: Target, pool: seq<string>, lex: Prdist): (r: Result<seq<string>>)
    requires WellFormed(lex)
    ensures r.Failure? <==>
              (target.Text? && !IsLetters(target.s)) ||
              (pool != [] && (target == Text([]) || exists w :: w in pool && (w !in lex || w == [])))
    ensures target.Text? && !IsLetters(target.s) ==> r == Failure(KeyError)
    ensures r.Failure? && !(target.Text? && !IsLetters(target.s)) && (forall w :: w in pool ==> w in lex) ==>
              r.error == TypeError
    ensures r.Failure? && target != Text([]) && (forall w :: w in pool ==> w != []) ==> r.error == KeyError
    ensures r.Success? ==> IsSubsequence(r.value, pool)
    ensures r.Success? && target.Number? ==>
              Searchable(lex, pool) && r.value == Filter(target.n, pool, lex)
    ensures r.Success? && target.Text? && target.s != [] ==>
              Searchable(lex, pool) && IsLetters(target.s) &&
              r.value == Filter(LetterProduct(target.s), pool, lex)
    ensures r.Success? && target == Text([]) ==> r.value == []
    ensures r.Success? && target.Number? ==>
              forall w :: w in r.value <==> w in pool && Divides(LetterProduct(w), target.n)
    ensures r.Success? && target.Text? ==>
              forall w :: w in r.value <==> w in pool && multiset(w) <= multiset(target.s)
  {
    var code := match target
      case Number(n) => Code(n)
      case Text(s) => Encode(s);
    if code.Unmapped? then Failure(KeyError)
    else
      var r := Scan(code, pool, lex);
      if r.Success? && code.Code? && target.Text? then
        FilterBySubMultiset(target.s, pool, lex);
        r
      else
        r
  }

  /** When `build_candidates` raises `TypeError`: some `%` meets the `''`
      code, of the input (no letters) or of the empty word. */
  ghost predicate CandidatesRaise(text: string, lex: Prdist)
  {
    lex != map[] && (InputLetters(text) == [] || [] in lex)
  }

  /** The lexicon words spelled with letters of the input. */
  ghost function CandidateSet(text: string, lex: Prdist): set<string>
  {
    set w | w in lex && multiset(w) <= multiset(InputLetters(text))
  }

  /** `build_candidates` as in working_copy.py: the lexicon entries, unchanged,
      of the words whose code divides the code of the lower-cased, letters-only
      input. A `''` code on either side of `%` raises `TypeError`. */
  method BuildCandidateMap(text: string, lex: Prdist) returns (r: Result<Prdist>)
    requires WellFormed(lex)
    ensures r.Failure? <==> CandidatesRaise(text, lex)
    ensures r.Failure? ==> r.error == TypeError
    ensures r.Success? ==> r.value.Keys == CandidateSet(text, lex)
    ensures r.Success? ==> forall w :: w in r.value ==> r.value[w] == lex[w]
  {
    var letters := InputLetters(text);
    var code := Encode(letters);
    var d: Prdist := map[];
    var todo := lex.Keys;
    while todo != {}
      invariant todo <= lex.Keys
      invariant todo != lex.Keys ==> code.Code? && [] !in lex.Keys - todo
      invariant forall w :: w in d <==> w in lex.Keys - todo && Divides(LetterProduct(w), LetterProduct(letters))
      invariant forall w :: w in d ==> d[w] == lex[w]
      decreases todo
    {
      var w :| w in todo;
      var wordCode := Encoded(lex, w);
      if !code.Code? || !wordCode.Code? {
        return Failure(TypeError);
      }
      if code.value % wordCode.value == 0 {
        d := d[w := lex[w]];
      }
      todo := todo - {w};
    }
    forall w | w in lex
      ensures Divides(LetterProduct(w), LetterProduct(letters)) <==> multiset(w) <= multiset(letters)
    {
      SubMultisetIffDivides(w, letters);
    }
    return Success(d);
  }

  /** `build_candidates` as in anagrams.py: the same search, returning only
      the words. */
  method BuildCandidates(text: string, lex: Prdist) returns (r: Result<set<string>>)
    requires WellFormed(lex)
    ensures r.Failure? <==> CandidatesRaise(text, lex)
    ensures r.Failure? ==> r.error == TypeError
    ensures r.Success? ==> r.value == CandidateSet(text, lex)
  {
    var d := BuildCandidateMap(text, lex);
    match d
    case Failure(e) => r := Failure(e);
    case Success(m) => r := Success(m.Keys);
  }
}
