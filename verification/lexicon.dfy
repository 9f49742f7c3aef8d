/** The lexicon (`Prdist`): a dictionary from each word to the pair
    `[frequency, encode(word)]`, filled once from (word, score) pairs and
    only read afterwards. */
module Lexicon {
  import opened Base
  import opened Encoding

  /** One dictionary value `[int(score), encode(word)]`. */
  datatype Entry = Entry(freq: int, code: EncodeResult)

  type Prdist = map<string, Entry>

  /** What `encode` gives a word of letters a-z: `''` for the empty word,
      otherwise the product of its letters' primes. */
  function LetterCode(w: string): EncodeResult
    requires IsLetters(w)
  {
    if w == [] then Blank else Code(LetterProduct(w))
  }

  /** What filling the dictionary guarantees of every entry: the word is made
      of letters a-z and its stored code is the word's encoding. */
  ghost predicate WellFormed(lex: Prdist)
  {
    forall w :: w in lex ==> IsLetters(w) && lex[w].code == LetterCode(w)
  }

  /** No pair after position `k` of `text` is for the same word. */
  ghost predicate LastFor(text: seq<(string, int)>, k: nat)
    requires k < |text|
  {
    forall j :: k < j < |text| ==> text[j].0 != text[k].0
  }

  /** What the dictionary holds after the first `i` pairs of `text`: every
      word so far is made of letters a-z, each one is a key, and a word's
      entry comes from its last pair so far. */
  ghost predicate Loaded(text: seq<(string, int)>, i: nat, lex: Prdist)
    requires i <= |text|
  {
    (forall k :: 0 <= k < i ==> IsLetters(text[k].0)) &&
    WellFormed(lex) && Keys(text, i, lex) && Entries(text, i, lex)
  }

  ghost predicate Keys(text: seq<(string, int)>, i: nat, lex: Prdist)
    requires i <= |text|
  {
    forall w :: w in lex <==> exists k :: 0 <= k < i && text[k].0 == w
  }

  ghost predicate Entries(text: seq<(string, int)>, i: nat, lex: Prdist)
    requires i <= |text|
  {
    forall k :: 0 <= k < i && (forall j :: k < j < i ==> text[j].0 != text[k].0) ==>
      text[k].0 in lex && lex[text[k].0] == Entry(text[k].1, Encode(text[k].0))
  }

  /** Storing the entry of pair `i` extends what the dictionary holds by
      that pair. */
  lemma LoadStep(text: seq<(string, int)>, i: nat, lex: Prdist)
    requires i < |text| && Loaded(text, i, lex) && IsLetters(text[i].0)
    ensures Loaded(text, i + 1, lex[text[i].0 := Entry(text[i].1, Encode(text[i].0))])
  {
    StoreWellFormed(lex, text[i].0, text[i].1);
    StoreKeys(text, i, lex);
    StoreEntries(text, i, lex);
    assert forall k :: 0 <= k < i + 1 ==> IsLetters(text[k].0);
  }

  lemma StoreWellFormed(lex: Prdist, word: string, score: int)
    requires WellFormed(lex) && IsLetters(word)
    ensures WellFormed(lex[word := Entry(score, Encode(word))])
  {
  }

  lemma StoreKeys(text: seq<(string, int)>, i: nat, lex: Prdist)
    requires i < |text| && Keys(text, i, lex)
    ensures Keys(text, i + 1, lex[text[i].0 := Entry(text[i].1, Encode(text[i].0))])
  {
    var next := lex[text[i].0 := Entry(text[i].1, Encode(text[i].0))];
    forall w
      ensures w in next <==> exists k :: 0 <= k < i + 1 && text[k].0 == w
    {
      if w == text[i].0 {
        assert text[i].0 == w;
      }
    }
  }

  lemma StoreEntries(text: seq<(string, int)>, i: nat, lex: Prdist)
    requires i < |text| && Entries(text, i, lex)
    ensures Entries(text, i + 1, lex[text[i].0 := Entry(text[i].1, Encode(text[i].0))])
  {
    var next := lex[text[i].0 := Entry(text[i].1, Encode(text[i].0))];
    forall k | 0 <= k < i + 1 && (forall j :: k < j < i + 1 ==> text[j].0 != text[k].0)
      ensures text[k].0 in next && next[text[k].0] == Entry(text[k].1, Encode(text[k].0))
    {
      if k < i {
        assert text[i].0 != text[k].0;
        assert forall j :: k < j < i ==> text[j].0 != text[k].0;
      }
    }
  }

  /** `Prdist.__init__`: stores `[score, encode(word)]` under each word, in
      order, so the last pair for a word wins; a word with a character
      outside a-z makes `encode` raise `KeyError`. */
  method LoadLexicon(text: seq<(string, int)>) returns (r: Result<Prdist>)
    ensures r.Failure? <==> exists k :: 0 <= k < |text| && !IsLetters(text[k].0)
    ensures r.Failure? ==> r.error == KeyError
    ensures r.Success? ==> WellFormed(r.value)
    ensures r.Success? ==> forall w :: w in r.value <==> exists k :: 0 <= k < |text| && text[k].0 == w
    ensures r.Success? ==> forall k :: 0 <= k < |text| && LastFor(text, k) ==>
                             r.value[text[k].0] == Entry(text[k].1, Encode(text[k].0))
  {
    var lex: Prdist := map[];
    var i := 0;
    while i < |text|
      invariant i <= |text|
      invariant Loaded(text, i, lex)
    {
      var (word, score) := text[i];
      var code := Encode(word);
      if code.Unmapped? {
        return Failure(KeyError);
      }
      LoadStep(text, i, lex);
      lex := lex[word := Entry(score, code)];
      i := i + 1;
    }
    return Success(lex);
  }

  /** `Prdist.__call__`: the stored frequency of a word. */
  function Frequency(lex: Prdist, word: string): int
    requires word in lex
  {
    lex[word].freq
  }

  /** `Prdist.encoded`: the stored code of a word, which is its encoding. */
  function Encoded(lex: Prdist, word: string): (r: EncodeResult)
    requires WellFormed(lex) && word in lex
    ensures r == Encode(word)
    ensures word != [] ==> r == Code(LetterProduct(word))
  {
    lex[word].code
  }

  /** The number `encoded` gives for a non-empty lexicon word. */
  function CodeOf(lex: Prdist, word: string): (n: nat)
    requires WellFormed(lex) && word in lex && word != []
    ensures n == LetterProduct(word) && n >= 2
  {
    lex[word].code.value
  }
}
