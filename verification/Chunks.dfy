/** Pieces of equal size laid end to end. */
module Chunks {
  import opened Bits

  /** Lay chunks end to end. */
  ghost function Concat<T>(chunks: seq<seq<T>>): seq<T> {
    if chunks == [] then [] else chunks[0] + Concat(chunks[1..])
  }

  ghost predicate Even<T>(chunks: seq<seq<T>>, size: nat) {
    forall c :: c in chunks ==> |c| == size
  }

  /** Indexing equal-sized chunks laid end to end. */
  lemma {:induction false} ConcatAt<T>(chunks: seq<seq<T>>, size: nat, n: nat)
    requires size > 0 && Even(chunks, size) && n < |Concat(chunks)|
    ensures Steps(n, size) < |chunks| && Concat(chunks)[n] == chunks[Steps(n, size)][Rest(n, size)]
  {
    assert chunks[0] in chunks;
    if n >= size {
      ConcatAt(chunks[1..], size, n - size);
    }
  }

  lemma {:induction false} ConcatLength<T>(chunks: seq<seq<T>>, size: nat)
    requires Even(chunks, size)
    ensures |Concat(chunks)| == |chunks| * size
  {
    if chunks != [] {
      assert chunks[0] in chunks;
      ConcatLength(chunks[1..], size);
      AddOne(|chunks| - 1, size);
    }
  }

  lemma AddOne(q: nat, size: nat)
    ensures (q + 1) * size == q * size + size
  {
  }

  /** Quotient and remainder by repeated subtraction. */
  function Steps(n: nat, size: nat): nat
    requires size > 0
  {
    if n < size then 0 else Steps(n - size, size) + 1
  }

  function Rest(n: nat, size: nat): (r: nat)
    requires size > 0
    ensures r < size
  {
    if n < size then n else Rest(n - size, size)
  }

  lemma {:induction false} StepsDivide(n: nat, size: nat)
    requires size > 0
    ensures n == Steps(n, size) * size + Rest(n, size)
  {
    if n >= size {
      StepsDivide(n - size, size);
      AddOne(Steps(n - size, size), size);
    }
  }

  lemma DivisionBySteps(n: nat, size: nat)
    requires size > 0
    ensures Steps(n, size) == n / size && Rest(n, size) == n % size
  {
    hide Steps;
    StepsDivide(n, size);
    ModUnique(n, size, Steps(n, size), Rest(n, size));
  }

  /** The i-th piece is where the ones before it end. */
  lemma {:induction false} ConcatSlice<T>(chunks: seq<seq<T>>, size: nat, i: nat)
    requires Even(chunks, size) && i < |chunks|
    ensures 0 <= i * size && i * size + size <= |Concat(chunks)|
    ensures Concat(chunks)[i * size..i * size + size] == chunks[i]
  {
    assert chunks[0] in chunks;
    if i > 0 {
      ConcatSlice(chunks[1..], size, i - 1);
      AddOne(i - 1, size);
      var rest := Concat(chunks[1..]);
      assert Concat(chunks)[size..] == rest;
      SliceAfter(Concat(chunks), size, (i - 1) * size, size);
    }
  }

  lemma SliceAfter<T>(s: seq<T>, a: nat, b: nat, n: nat)
    requires a + b + n <= |s|
    ensures s[a + b..a + b + n] == s[a..][b..b + n]
  {
  }
}
