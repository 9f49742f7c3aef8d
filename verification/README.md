# Anagram search by prime products, in Dafny

This project models the anagram generator of `anagrams.py`. `working_copy.py`
holds the same encoder, lexicon, candidate filters and generator, except that
its `build_candidates` returns the dictionary rather than its keys.

- **The encoder** (`encode`): each letter a-z stands for a fixed prime, and a
  text stands for the product of its letters' primes. So one word's letters
  are among another's exactly when the first code divides the second.
- **The lexicon** (`Prdist`): a dictionary `word -> [frequency, encode(word)]`.
- **The candidate filters**:
  - `get_candidates` keeps the words of a pool whose code divides a target code;
  - `build_candidates` keeps the lexicon words whose code divides the code of
    the lower-cased letters of the input.
- **The generator** (`generate_anagrams`): a depth-first search over a stack of
  frames `(word, code, pool)`.
  - Each step of its two nested loops does one of three things. It yields the
    stack's words when the top code is 1. It drops a frame whose pool is empty.
    Otherwise it pops the last word of the top pool and pushes a frame for it.
  - With an empty stack, it plants the next root from the sorted candidate list.

Modules, one per layer:

- `Arith`: divisibility, Python 2 floor division and primes.
- `Encoding`: the prime table and `encode`, including unique factorisation
  ("code divides" iff "sub-multiset").
- `Lexicon`: `Prdist`.
- `Candidates`: `get_candidates` and both versions of `build_candidates`.
- `Search`: one loop iteration of the generator as the function `Step` on the
  generator's local state. A resumption (`Resume`) runs steps until something
  is handed out.
- `Invariants` and `Preservation`: what every step keeps true, and why yielded
  lists are exact, new and made of distinct words.
- `Generator`: the generator object as the class `AnagramGenerator`.
  - It holds `candidates`, `stack` and `cipher_code` as fields.
  - Its `Next` runs the body to the next `yield`, the end, or an exception.
  - `Next` is proved against `Resume` and against the properties proved of
    `Resume`.

Errors are values. `KeyError` is a character outside a-z or a word missing
from the lexicon. `TypeError` is `%` or `/` applied to the empty-string code
`''` that `encode` returns for an empty text.

The source cells below cite `anagrams.py`. The same code sits in
`working_copy.py`:

| what | `working_copy.py` |
|---|---|
| `encode` | 7-13 |
| `Prdist` | 20-29 |
| `get_candidates` | 51-55 |
| stack setup | 82 |
| candidate sort | 83-84 |
| cipher code | 85 |
| outer loop | 87-97 |
| inner loop | 98-115 |

## Model

| member | source | states |
|---|---|---|
| Encoding.Encode | anagrams.py:10-16 | `encode` gives `''` exactly for the empty text and a number exactly for a non-empty text over a-z. The number is the product of the table primes, with multiplicity. Otherwise it gives `KeyError` at a character outside a-z that follows only letters. |
| Encoding.ReduceIsLetterProduct | anagrams.py:16 | `reduce(mul, ...)` over the table lookups equals the letter product. |
| Encoding.PrimeIsPrime | anagrams.py:12-14 | Every table value is a prime. |
| Encoding.PrimeInjective | anagrams.py:12-14 | Different letters have different table primes. |
| Encoding.LetterProductConcat | anagrams.py:16 | The code of a concatenation is the product of the codes. |
| Encoding.LetterProductPermutation | anagrams.py:16 | Texts with the same letter multiset have the same code. |
| Encoding.SubMultisetDivides | anagrams.py:50 | If a word's letters are a sub-multiset of a text's, its code divides the text's code. |
| Encoding.DividesSubMultiset | anagrams.py:50 | If a word's code divides a text's code, its letters are a sub-multiset of the text's. |
| Encoding.SubMultisetIffDivides | anagrams.py:50 | Both directions of the divisibility test together. |
| Encoding.SameCodeIffAnagram | anagrams.py:12-16 | Two texts over a-z have the same code exactly when they are anagrams. |
| Encoding.KeepLetters | anagrams.py:46 | `''.join(re.findall('[a-z]+', s))` keeps only a-z. Each letter occurs as often as in `s`. |
| Encoding.InputLetters | anagrams.py:46 | The lower-cased input, reduced to a-z: each letter as often as in `s.lower()`, nothing else. |
| Lexicon.LoadLexicon | anagrams.py:23-25 | Fails with `KeyError` exactly when some word has a character outside a-z. Otherwise: the keys are exactly the words of the pairs; each word's entry is `[score, encode(word)]` from its last pair; every stored code is the word's encoding. |
| Lexicon.LoadStep | anagrams.py:24-25 | Storing one pair extends the loop invariant from the first `i` pairs to the first `i + 1`. |
| Lexicon.Encoded | anagrams.py:31-32 | `encoded(word)` is `encode(word)`, and for a non-empty word its letter product. |
| Lexicon.CodeOf | anagrams.py:31-32 | The number `encoded` gives a non-empty lexicon word is its letter product, at least 2. |
| Candidates.Filter | anagrams.py:58 | For a numeric code, the result holds exactly the pool words whose code divides it. Each appears as often as in the pool. It is a subsequence of the pool (pool order kept), and no longer than the pool. |
| Candidates.FilterBySubMultiset | anagrams.py:56-58 | Filtering by a text's code keeps exactly the pool words spelled with letters of the text. |
| Candidates.Scan | anagrams.py:58 | The comprehension fails exactly when the pool is non-empty and either the code is `''` or some pool word is missing from the lexicon or empty. The error is `TypeError` when all words are in the lexicon, and `KeyError` when the code is numeric and no word is empty. Otherwise the result is `Filter`'s. |
| Candidates.GetCandidates | anagrams.py:54-58 | A string target is encoded first; a character outside a-z raises `KeyError`. Failure happens exactly in those cases and in `Scan`'s, with the matching error kind. On success the result is `Filter`'s for the target's code (`[]` for the empty string), so repeats are kept. It is a subsequence of the pool. For a number: exactly the pool words whose code divides it. For a string: exactly the pool words spelled with its letters. |
| Candidates.BuildCandidateMap | working_copy.py:117-124 | Raises `TypeError` exactly when the lexicon is non-empty and the input has no letters or the lexicon has the empty word. Otherwise the keys are exactly the lexicon words spelled with the input's lower-cased letters, each mapped to its lexicon entry unchanged. |
| Candidates.BuildCandidates | anagrams.py:45-52 | The same failure condition. Otherwise it returns exactly the lexicon words spelled with the input's lower-cased letters. |
| Search.ChildFrame | anagrams.py:139-141 | The pushed frame holds the popped word, has only lexicon words in its pool, and its pool is no longer than what was left to try. |
| Search.PopFrame | anagrams.py:134 | `stack.pop()` keeps every word known and lowers the termination measure. |
| Search.Descend | anagrams.py:137-141 | Popping the last pool word and pushing its frame keeps every word known and lowers the termination measure. |
| Search.PlantRoot | anagrams.py:114-124 | Popping the last candidate and pushing its root frame keeps every word known and lowers the termination measure. |
| Search.Step | anagrams.py:114-142 | One loop iteration keeps every word known. It lowers the termination measure unless it ends the generator. |
| Search.Resume | anagrams.py:114-142 | Running to the next `yield` or end is well-founded (decreases the measure) and keeps every word known. |
| Invariants.DescendingDistinct | anagrams.py:131 | Words taken in strictly decreasing position of the sorted candidates are pairwise different. |
| Invariants.FilterAscending | anagrams.py:123-124 | Filtering a pool keeps its words in increasing position. |
| Invariants.PopOrdered | anagrams.py:130 | Dropping a frame keeps the stack's shape against the sorted candidate list. |
| Invariants.PushOrdered | anagrams.py:138-141 | Pushing the child for the last pool word keeps the shape. The stack's words decrease in position, and every pool lies before its frame's word and before the word last popped from it. |
| Invariants.RootOrdered | anagrams.py:115-124 | Planting the last candidate as root keeps the shape. |
| Invariants.DescendOrdered | anagrams.py:138-141 | The `else` branch keeps the shape. |
| Invariants.PlantRootOrdered | anagrams.py:114-124 | The outer loop body keeps the shape. |
| Invariants.ChildExact | anagrams.py:139-141 | When the word's code divides the top code, the child's code times the word's code is exactly the top code, and every child pool word divides the child's code. |
| Invariants.PopExact | anagrams.py:130 | Dropping a frame keeps every division exact. |
| Invariants.PushDividing | anagrams.py:138-141 | Pushing a child whose pool divides its code keeps every pool dividing its frame's code. |
| Invariants.PushLinked | anagrams.py:139 | Pushing an exact quotient extends the chain of codes back to `cipher_code`. |
| Invariants.DescendExact | anagrams.py:138-141 | The `else` branch keeps every division exact. |
| Invariants.PlantRootExact | anagrams.py:121-124 | Planting a root keeps every division exact. |
| Invariants.PrefixProduct | anagrams.py:122 | A frame's `branch_code` times the codes of the words up to and including that frame's is `cipher_code`. |
| Invariants.StackProduct | anagrams.py:129-131 | When the top code is 1, the codes of the stack's words multiply to `cipher_code`. |
| Invariants.PathCodeLetters | anagrams.py:131 | The product of the words' codes is the code of their concatenated letters. |
| Invariants.PopFuture | anagrams.py:130 | Dropping a settled frame only forgets lists that could still be yielded. |
| Invariants.PushFuture | anagrams.py:138-141 | Pushing a child only narrows what can be yielded. |
| Invariants.DescendFuture | anagrams.py:138-141 | The `else` branch only narrows what can be yielded. |
| Invariants.PlantRootFuture | anagrams.py:114-124 | Planting a root only narrows what can be yielded. |
| Invariants.PopAfter | anagrams.py:130-131 | Everything still to come after a yield lies strictly before the yielded list, lexicographically by positions. |
| Invariants.EmptyInv | anagrams.py:114 | The empty state satisfies the invariant and can yield nothing. |
| Preservation.YieldKeeps | anagrams.py:129-131 | The yielding branch keeps the invariant and narrows the future. The yielded list is `[word[0] for word in stack] + [branch_word]`: one of the lists that could come, after everything still to come, in decreasing position, with codes multiplying to `cipher_code`. |
| Preservation.DropKeeps | anagrams.py:134 | Dropping an exhausted frame keeps the invariant and narrows the future. |
| Preservation.DescendKeeps | anagrams.py:137-141 | The `else` branch keeps the invariant and narrows the future. |
| Preservation.PlantKeeps | anagrams.py:114-124 | Planting a root keeps the invariant and narrows the future. |
| Preservation.StepKeeps | anagrams.py:114-141 | Every loop iteration keeps the invariant and narrows the future. |
| Preservation.StepHandsOut | anagrams.py:129-131 | A yielded list satisfies `Yielded`. A step that ends the generator leaves the empty state. |
| Preservation.ResumeKeeps | anagrams.py:114-142 | A resumption keeps the invariant and narrows the future. A yield lowers the measure and satisfies `Yielded`. Anything else leaves the empty state. |
| Generator.SortedCandidates | anagrams.py:110-111 | The sorted candidates are exactly the candidates, in the given ranking order, each once. |
| Generator.CipherCode | anagrams.py:112 | Corrected cipher code: the code of the lower-cased input letters, numeric exactly when there are any. |
| Generator.CipherCodeAsWritten | anagrams.py:112 | As written: the code of the input's a-z characters without lower-casing, numeric exactly when there are any. |
| Generator.AsWrittenAgrees | anagrams.py:112 | On an input without capital letters, the as-written cipher code equals the corrected one. |
| Generator.UppercaseYieldsNonAnagram | anagrams.py:112 | With the as-written cipher code, input "Ab" and lexicon {"a"} yield ["a"], which is not an anagram of the input. |
| Generator.LaunchConsistent | anagrams.py:110-112 | With the corrected cipher code, every sorted candidate's code divides the cipher code. |
| Generator.StartInv | anagrams.py:109-111 | The search may start from the sorted candidates and an empty stack. |
| Generator.ExactCover | anagrams.py:131 | Words whose codes multiply to the cipher code spell exactly the input's lower-cased letters. |
| Generator.HandedOutOnce | anagrams.py:131 | A yielded list was not yielded before, and everything still to come lies before every list yielded so far. |
| Generator.HandedOutAnagram | anagrams.py:131 | A yielded list has distinct words, all candidates from the lexicon, that together spell exactly the input's letters. |
| Generator.Resumed | anagrams.py:114-142 | A resumption of a running generator keeps it running. Its list is new, non-empty, of distinct candidate words, and an exact anagram of the input. If it yields nothing, the generator is finished. |
| Generator.AnagramGenerator.constructor | anagrams.py:84 | Creating the generator runs none of its body. |
| Generator.AnagramGenerator.Launch | anagrams.py:109-112 | The prologue: `TypeError` exactly when `build_candidates` raises. Otherwise the candidates are the sorted candidate set, the stack is empty, the cipher code is set, and the generator is running. |
| Generator.AnagramGenerator.Next | anagrams.py:84-142 | One `next()`. The first call runs the prologue. Every call's new state and result are those of `Resume`. A list handed out is new, non-empty, of distinct candidate words, and an exact anagram of the input. Anything else leaves the generator finished. |
| Generator.AnagramGenerator.Continue | anagrams.py:114-142 | `next()` after the prologue, with the same guarantees, and the generator stays valid. |
| Generator.AnagramGenerator.RunToNextYield | anagrams.py:114-142 | The two nested `while` loops, run in place on `candidates` and `stack`, end in exactly the state and result of `Resume`. |
| Generator.AnagramGenerator.PushChild | anagrams.py:137-141 | The in-place pop from the top pool plus the push of the child frame is `Descend`. |
| Generator.AnagramGenerator.PlantNextRoot | anagrams.py:114-124 | The in-place `candidates.pop()` plus the push of the root frame is `PlantRoot`. |

## Left out

- File input (`datafile`, the module-level `LEXICON`): the lexicon is built from
  a given sequence of (word, score) pairs. Scores are already integers, so
  `int(score)` and its `ValueError` are not modelled.
- `Prdist.N`, `n_choose_k`, `weighted_Pr` and `score` are floating-point
  scoring. The sort by `weighted_Pr` becomes a given ranking of all lexicon
  words; this ranking also fixes the order of ties, which Python leaves to the
  dictionary's iteration order.
- `main`, the `__main__` block and `print`: console I/O.
- The `decode=True` branch of `encode`: it returns `None` and does nothing else.
- The regular expression is modelled only as "keep the characters a-z", and
  `str.lower()` only as ASCII lower-casing.
- Dictionary iteration order in `build_candidates` and `Prdist.__init__`: the
  results are a set or a map, so the model does not depend on it.
- Generator suspension: the generator is an object whose `Next` runs to the next
  `yield`, not a coroutine.
- `working_copy.py:131-177`: the bigram notes there are text inside string
  literals, not code.
- Lexicon.Frequency (`__call__`, anagrams.py:28-29) is modelled but carries no
  contract. Its value is the score that `LoadLexicon`'s postcondition stores.
- Completeness (every anagram is eventually yielded) is not proved. Yielded
  lists are proved exact, new and duplicate-free, and the search is proved to
  terminate.
- The generator uses the corrected cipher code (see Findings). By
  `Generator.AsWrittenAgrees` the two codes agree on inputs without capital
  letters, so the guarantees carry over to the program as written only for
  such inputs.
- Generator.AnagramGenerator.Launch: the sort key can raise in the source, and
  the model does not capture it. `n_choose_k` (anagrams.py:65-66) converts
  `math.factorial(n)` to a float, which raises `OverflowError` once
  `len(cipher_text) >= 171`, whenever there is a candidate to sort.
  `weighted_Pr` (anagrams.py:71) divides by `lexicon.N`, which raises
  `ZeroDivisionError` when the frequencies sum to 0. So the first `next()` of
  the source raises in cases where `Launch` and `Next` give `Resume`'s result.
- Candidates.GetCandidates: the default pool `lexicon=LEXICON` (anagrams.py:54),
  which iterates over the whole lexicon's keys, is not modelled. The pool is
  always given, as at every call site.

## Findings

| source | as written | input that shows it | evidently intended | confidence | as-written member | corrected member |
|---|---|---|---|---|---|---|
| anagrams.py:112 (also working_copy.py:85) | `cipher_code` encodes the a-z characters of the input without lower-casing it. `build_candidates` (anagrams.py:46) lower-cases first. Candidates can then contain letters the cipher code lacks: the division goes inexact, and a non-anagram is yielded. | input "Ab", lexicon {"a"}: cipher code 3, candidate "a" (code 2), 3/2 = 1, so ["a"] is yielded | encode the lower-cased letters, as `build_candidates` does | not executed | Generator.UppercaseYieldsNonAnagram | Generator.CipherCode |
