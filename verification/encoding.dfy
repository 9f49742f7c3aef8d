/** The letter encoder: every lower-case letter a-z stands for a fixed prime
    and a text stands for the product of its letters' primes, one factor per
    occurrence. By unique factorisation the product determines the letter
    multiset, so "the letters of w are among the letters of t" becomes "the
    code of w divides the code of t". */
module Encoding {
  import opened Arith

  /** What `encode` returns: the empty string `''` for an empty text, the
      product of the table primes, or the `KeyError` that the table lookup
      raises for a character outside a-z. */
  datatype EncodeResult = Blank | Code(value: nat) | Unmapped(key: char)

  /** The table of `encode`, in alphabetical order: a=2, b=3, ..., z=101. */
  const Primes: seq<nat> := [2, 3, 5, 7, 11, 13, 17, 19, 23, 29, 31, 37, 41,
                             43, 47, 53, 59, 61, 67, 71, 73, 79, 83, 89, 97, 101]

  predicate IsLetter(c: char)
  {
    'a' <= c <= 'z'
  }

  predicate IsLetters(s: string)
  {
    forall i :: 0 <= i < |s| ==> IsLetter(s[i])
  }

  lemma TablePrime(i: nat)
    requires i < |Primes|
    ensures IsPrime(Primes[i])
  {
    var p := Primes[i];
    assert 2 <= p < 121;
    forall d | 2 <= d <= 10 && d < p
      ensures p % d != 0
    {
      assert d == 2 || d == 3 || d == 4 || d == 5 || d == 6 || d == 7 || d == 8 || d == 9 || d == 10;
    }
    SmallPrime(p);
  }

  lemma TableIncreasing(i: nat, j: nat)
    requires i < j < |Primes|
    ensures Primes[i] < Primes[j]
    decreases j - i
  {
    if i + 1 < j {
      TableIncreasing(i + 1, j);
    }
  }

  /** `table[c]` for a letter. */
  function Prime(c: char): (p: nat)
    requires IsLetter(c)
    ensures p >= 2
  {
    Primes[c as int - 'a' as int]
  }

  lemma PrimeIsPrime(c: char)
    requires IsLetter(c)
    ensures IsPrime(Prime(c))
  {
    TablePrime(c as int - 'a' as int);
  }

  /** Different letters have different primes. */
  lemma PrimeInjective(c: char, d: char)
    requires IsLetter(c) && IsLetter(d) && c != d
    ensures Prime(c) != Prime(d)
  {
    var i, j := c as int - 'a' as int, d as int - 'a' as int;
    if i < j {
      TableIncreasing(i, j);
    } else {
      TableIncreasing(j, i);
    }
  }

  /** The meaning of a code: the product of the table primes of the
      letters of `s`, with multiplicity (1 for no letters). */
  function LetterProduct(s: string): (n: nat)
    requires IsLetters(s)
    ensures n >= 1
    ensures s != [] ==> n >= 2
  {
    if s == [] then 1 else Prime(s[0]) * LetterProduct(s[1..])
  }

  /** `[table[char] for char in text]` for a text the table covers. */
  function Lookup(text: string): seq<nat>
    requires IsLetters(text)
  {
    seq(|text|, i requires 0 <= i < |text| => Prime(text[i]))
  }

  /** `reduce(mul, ps)`: the left fold of `*` over a non-empty list. */
  function Reduce(ps: seq<nat>): nat
    requires |ps| > 0
  {
    if |ps| == 1 then ps[0] else Reduce(ps[..|ps| - 1]) * ps[|ps| - 1]
  }

  /** Where the table lookup of a text first fails. */
  function FirstUnmapped(text: string): (i: nat)
    requires !IsLetters(text)
    ensures i < |text| && !IsLetter(text[i]) && IsLetters(text[..i])
  {
    if !IsLetter(text[0]) then 0
    else
      assert text[1..][..FirstUnmapped(text[1..])] == text[1..1 + FirstUnmapped(text[1..])];
      1 + FirstUnmapped(text[1..])
  }

  /** `encode(text)`: `''` for the empty text, `KeyError` at the first
      character outside a-z, and otherwise the product of the table primes. */
  function Encode(text: string): (r: EncodeResult)
    ensures r == Blank <==> text == []
    ensures r.Code? <==> text != [] && IsLetters(text)
    ensures r.Code? ==> r.value == LetterProduct(text)
    ensures r.Unmapped? ==>
              !IsLetter(r.key) && exists i :: 0 <= i < |text| && text[i] == r.key && IsLetters(text[..i])
  {
    if text == [] then Blank
    else if !IsLetters(text) then Unmapped(text[FirstUnmapped(text)])
    else
      ReduceIsLetterProduct(text);
      Code(Reduce(Lookup(text)))
  }

  lemma {:induction false} ReduceIsLetterProduct(text: string)
    requires IsLetters(text) && text != []
    ensures Reduce(Lookup(text)) == LetterProduct(text)
    decreases |text|
  {
    var n := |text|;
    var init, last := text[..n - 1], text[n - 1];
    assert text == init + [last];
    LetterProductConcat(init, [last]);
    assert LetterProduct([last]) == Prime(last);
    if n > 1 {
      assert Lookup(text)[..n - 1] == Lookup(init);
      ReduceIsLetterProduct(init);
    }
  }

  lemma LettersConcat(a: string, b: string)
    requires IsLetters(a) && IsLetters(b)
    ensures IsLetters(a + b)
  {
    forall i | 0 <= i < |a + b|
      ensures IsLetter((a + b)[i])
    {
      if i < |a| { assert (a + b)[i] == a[i]; } else { assert (a + b)[i] == b[i - |a|]; }
    }
  }

  /** The code of a concatenation is the product of the codes. */
  lemma {:induction false} LetterProductConcat(a: string, b: string)
    requires IsLetters(a) && IsLetters(b)
    ensures IsLetters(a + b)
    ensures LetterProduct(a + b) == LetterProduct(a) * LetterProduct(b)
    decreases |a|
  {
    LettersConcat(a, b);
    if a == [] {
      assert a + b == b;
    } else {
      var ab := a + b;
      assert ab[0] == a[0] && ab[1..] == a[1..] + b;
      LetterProductConcat(a[1..], b);
      MulAssoc(Prime(a[0]), LetterProduct(a[1..]), LetterProduct(b));
    }
  }

  lemma MultisetRemove(t: string, i: nat)
    requires i < |t|
    ensures multiset(t[..i] + t[i + 1..]) == multiset(t) - multiset{t[i]}
    ensures multiset(t) == multiset(t[..i] + t[i + 1..]) + multiset{t[i]}
  {
    assert t == t[..i] + [t[i]] + t[i + 1..];
  }

  /** Taking one letter out of a text divides its code by that letter's prime. */
  lemma {:induction false} LetterProductRemove(t: string, i: nat)
    requires IsLetters(t) && i < |t|
    ensures IsLetters(t[..i] + t[i + 1..])
    ensures LetterProduct(t) == Prime(t[i]) * LetterProduct(t[..i] + t[i + 1..])
    decreases i
  {
    var rest := t[..i] + t[i + 1..];
    if i == 0 {
      assert rest == t[1..];
    } else {
      var tail := t[1..];
      LetterProductRemove(tail, i - 1);
      var inner := tail[..i - 1] + tail[i..];
      assert rest == [t[0]] + inner;
      assert rest[0] == t[0] && rest[1..] == inner;
      MulSwap(Prime(t[0]), Prime(t[i]), LetterProduct(inner));
    }
  }

  lemma LettersPermutation(a: string, b: string)
    requires IsLetters(a) && multiset(a) == multiset(b)
    ensures IsLetters(b)
  {
    forall j | 0 <= j < |b|
      ensures IsLetter(b[j])
    {
      assert b[j] in multiset(a);
    }
  }

  /** Encoding is invariant under permuting the letters. */
  lemma {:induction false} LetterProductPermutation(a: string, b: string)
    requires IsLetters(a) && multiset(a) == multiset(b)
    ensures IsLetters(b)
    ensures LetterProduct(a) == LetterProduct(b)
    decreases |a|
  {
    LettersPermutation(a, b);
    if a == [] {
      assert |b| == |multiset(b)| == 0;
    } else {
      var c, tail := a[0], a[1..];
      assert a == [c] + tail;
      assert c in multiset(a);
      var i :| 0 <= i < |b| && b[i] == c;
      var rest := b[..i] + b[i + 1..];
      MultisetRemove(b, i);
      assert multiset(tail) == multiset(rest);
      LetterProductPermutation(tail, rest);
      LetterProductRemove(b, i);
      var x := LetterProduct(tail);
      assert LetterProduct(rest) == x;
      assert LetterProduct(a) == Prime(c) * x;
      assert LetterProduct(b) == Prime(c) * x;
    }
  }

  /** If the letters of `w` are among those of `t`, the code of `w` divides
      the code of `t`. */
  lemma {:induction false} SubMultisetDivides(w: string, t: string)
    requires IsLetters(w) && IsLetters(t) && multiset(w) <= multiset(t)
    ensures Divides(LetterProduct(w), LetterProduct(t))
    decreases |w|
  {
    if w != [] {
      var c := w[0];
      assert w == [c] + w[1..];
      assert c in multiset(t);
      var i :| 0 <= i < |t| && t[i] == c;
      var rest := t[..i] + t[i + 1..];
      MultisetRemove(t, i);
      assert multiset(w[1..]) <= multiset(rest);
      SubMultisetDivides(w[1..], rest);
      LetterProductRemove(t, i);
      DividesProduct(Prime(c), LetterProduct(w[1..]), Prime(c), LetterProduct(rest));
    }
  }

  /** A letter's prime divides the code of a text only if the letter occurs
      in it: the table primes are distinct primes. */
  lemma {:induction false} PrimeDividesText(c: char, s: string)
    requires IsLetter(c) && IsLetters(s) && Divides(Prime(c), LetterProduct(s))
    ensures c in s
    decreases |s|
  {
    if s != [] && s[0] != c {
      PrimeInjective(c, s[0]);
      PrimeIsPrime(c);
      PrimeIsPrime(s[0]);
      PrimeDividesOther(Prime(c), Prime(s[0]), LetterProduct(s[1..]));
      PrimeDividesText(c, s[1..]);
    }
  }

  /** If the code of `w` divides the code of `t`, the letters of `w` are among
      those of `t`. */
  lemma {:induction false} DividesSubMultiset(w: string, t: string)
    requires IsLetters(w) && IsLetters(t) && Divides(LetterProduct(w), LetterProduct(t))
    ensures multiset(w) <= multiset(t)
    decreases |w|
  {
    if w != [] {
      var c := w[0];
      assert w == [c] + w[1..];
      DividesMultiple(Prime(c), LetterProduct(w[1..]));
      DividesTransitive(Prime(c), LetterProduct(w), LetterProduct(t));
      PrimeDividesText(c, t);
      var i :| 0 <= i < |t| && t[i] == c;
      var rest := t[..i] + t[i + 1..];
      LetterProductRemove(t, i);
      CancelFactor(Prime(c), LetterProduct(w[1..]), LetterProduct(rest));
      DividesSubMultiset(w[1..], rest);
      MultisetRemove(t, i);
    }
  }

  /** The divisibility test is exactly the sub-multiset test. */
  lemma SubMultisetIffDivides(w: string, t: string)
    requires IsLetters(w) && IsLetters(t)
    ensures multiset(w) <= multiset(t) <==> Divides(LetterProduct(w), LetterProduct(t))
  {
    if multiset(w) <= multiset(t) {
      SubMultisetDivides(w, t);
    }
    if Divides(LetterProduct(w), LetterProduct(t)) {
      DividesSubMultiset(w, t);
    }
  }

  /** Two texts have the same code exactly when they are anagrams of each other. */
  lemma SameCodeIffAnagram(a: string, b: string)
    requires IsLetters(a) && IsLetters(b)
    ensures LetterProduct(a) == LetterProduct(b) <==> multiset(a) == multiset(b)
  {
    if LetterProduct(a) == LetterProduct(b) {
      DividesSubMultiset(a, b);
      DividesSubMultiset(b, a);
    }
    if multiset(a) == multiset(b) {
      LetterProductPermutation(a, b);
    }
  }

  function LowerChar(c: char): char
  {
    if 'A' <= c <= 'Z' then (c as int - 'A' as int + 'a' as int) as char else c
  }

  /** `s.lower()` on an ASCII string. */
  function Lower(s: string): string
  {
    seq(|s|, i requires 0 <= i < |s| => LowerChar(s[i]))
  }

  /** `''.join(re.findall('[a-z]+', s))`: the characters of `s` that lie in
      a-z, in their order. */
  function KeepLetters(s: string): (r: string)
    ensures IsLetters(r)
    ensures forall c :: multiset(r)[c] == if IsLetter(c) then multiset(s)[c] else 0
  {
    if s == [] then []
    else
      assert s == [s[0]] + s[1..];
      (if IsLetter(s[0]) then [s[0]] else []) + KeepLetters(s[1..])
  }

  /** The letters `build_candidates` encodes: lower-cased first, then
      filtered to a-z. */
  function InputLetters(text: string): (r: string)
    ensures IsLetters(r)
    ensures forall c :: multiset(r)[c] == if IsLetter(c) then multiset(Lower(text))[c] else 0
  {
    KeepLetters(Lower(text))
  }
}
