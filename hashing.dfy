/// The reference hash functions over string keys.  `ord(c)` is the code point
/// of `c`, which is what `c as int` gives for a Dafny `char`.
module Hashing {

  /** hash_function_3: the sum of the code points of the key's characters.
      Never negative. */
  function HashFunction3(key: string): (r: int)
    ensures r >= 0
  {
    if key == [] then 0
    else HashFunction3(key[..|key| - 1]) + key[|key| - 1] as int
  }

  /** hash_function_2 as a value: the code points weighted by their 1-based
      position.  Never negative. */
  function PositionWeightedSum(key: string): (r: int)
    ensures r >= 0
  {
    if key == [] then 0
    else PositionWeightedSum(key[..|key| - 1]) + |key| * (key[|key| - 1] as int)
  }

  /** hash_function_1: the accumulator loop over the characters; it computes
      exactly hash_function_3. */
  method HashFunction1(key: string) returns (hash: int)
    ensures hash == HashFunction3(key)
  {
    hash := 0;
    var i := 0;
    while i < |key|
      invariant 0 <= i <= |key|
      invariant hash == HashFunction3(key[..i])
    {
      assert key[..i + 1][..i] == key[..i];
      hash := hash + key[i] as int;
      i := i + 1;
    }
    assert key[..|key|] == key;
  }

  /** hash_function_2: the accumulator loop with a running position. */
  method HashFunction2(key: string) returns (hash: int)
    ensures hash == PositionWeightedSum(key)
  {
    hash := 0;
    var index := 0;
    while index < |key|
      invariant 0 <= index <= |key|
      invariant hash == PositionWeightedSum(key[..index])
    {
      assert key[..index + 1][..index] == key[..index];
      hash := hash + (index + 1) * (key[index] as int);
      index := index + 1;
    }
    assert key[..|key|] == key;
  }

  lemma {:induction false} HashFunction3Concat(a: string, b: string)
    ensures HashFunction3(a + b) == HashFunction3(a) + HashFunction3(b)
  {
    if b == [] {
      assert a + b == a;
    } else {
      assert (a + b)[..|a + b| - 1] == a + b[..|b| - 1];
      HashFunction3Concat(a, b[..|b| - 1]);
    }
  }

  /** The character sum cannot tell anagrams apart: keys with the same
      characters, in any order, collide. */
  lemma {:induction false} AnagramsCollide(a: string, b: string)
    requires multiset(a) == multiset(b)
    ensures HashFunction3(a) == HashFunction3(b)
  {
    if a != [] {
      var n := |a| - 1;
      var c := a[n];
      assert a == a[..n] + [c];
      assert c in multiset(b);
      var p :| 0 <= p < |b| && b[p] == c;
      var rest := b[..p] + b[p + 1..];
      assert b == b[..p] + [c] + b[p + 1..];
      calc {
        multiset(a[..n]) + multiset{c};
        multiset(a);
        multiset(b);
        multiset(b[..p]) + multiset{c} + multiset(b[p + 1..]);
        multiset(rest) + multiset{c};
      }
      Cancel(multiset(a[..n]), multiset(rest), c);
      AnagramsCollide(a[..n], rest);
      HashWithout(b, p);
    }
  }

  lemma {:induction false} Cancel(x: multiset<char>, y: multiset<char>, c: char)
    requires x + multiset{c} == y + multiset{c}
    ensures x == y
  {
    forall e ensures x[e] == y[e] {
      assert (x + multiset{c})[e] == (y + multiset{c})[e];
    }
  }

  /** Taking the character at `p` out of a key takes its code point out of the sum. */
  lemma {:induction false} HashWithout(b: string, p: nat)
    requires p < |b|
    ensures HashFunction3(b) == HashFunction3(b[..p] + b[p + 1..]) + b[p] as int
  {
    assert b == b[..p] + [b[p]] + b[p + 1..];
    HashFunction3Concat(b[..p] + [b[p]], b[p + 1..]);
    HashFunction3Concat(b[..p], [b[p]]);
    HashFunction3Concat(b[..p], b[p + 1..]);
    assert [b[p]][..0] == [];
  }

  /** The position weights lie between 1 and the key's length, so the weighted
      sum lies between the plain sum and `|key|` times it. */
  lemma {:induction false} WeightedSumBounds(key: string)
    ensures HashFunction3(key) <= PositionWeightedSum(key) <= |key| * HashFunction3(key)
  {
    if key != [] {
      var pre := key[..|key| - 1];
      WeightedSumBounds(pre);
      WeightStep(|key|, HashFunction3(pre), PositionWeightedSum(pre), key[|key| - 1] as int);
    }
  }

  /** One more character, of weight `n`, keeps the weighted sum between the plain sum and `n` times it. */
  lemma WeightStep(n: int, h: int, p: int, c: int)
    requires n >= 1 && h >= 0 && c >= 0 && h <= p <= (n - 1) * h
    ensures h + c <= p + n * c <= n * (h + c)
  {
    assert n * c == (n - 1) * c + c;
    assert n * (h + c) == (n - 1) * h + h + n * c;
  }
}
