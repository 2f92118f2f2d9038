/** Arrays used as rings: stretches of elements that may run over the end to the beginning. */
module Circular {

  /** An index that has run past the end at most once. */
  function Wrap(x: nat, size: nat): (i: nat)
    requires x < 2 * size
    ensures i < size
  {
    if x < size then x else x - size
  }

  lemma MulAtLeast(q: nat, k: nat, size: nat)
    requires q >= k
    ensures q * size >= k * size
  { }

  lemma WrapIsMod(x: nat, size: nat)
    requires x < 2 * size
    ensures Wrap(x, size) == x % size
  { }

  /** The index after this one, as the loops compute it. */
  method Next(at: nat, size: nat) returns (next: nat)
    requires at < size
    ensures next == Wrap(at + 1, size)
  {
    WrapIsMod(at + 1, size);
    next := (at + 1) % size;
  }

  /** The `n` elements from index `from` on. */
  function Window<T>(ring: seq<T>, from: nat, n: nat): (s: seq<T>)
    requires from < |ring| && n <= |ring|
    ensures |s| == n && forall k :: 0 <= k < n ==> s[k] == ring[Wrap(from + k, |ring|)]
  {
    seq(n, k requires 0 <= k < n => ring[Wrap(from + k, |ring|)])
  }

  lemma WindowPush<T>(ring: seq<T>, from: nat, n: nat, value: T)
    requires from < |ring| && n < |ring|
    ensures Window(ring[Wrap(from + n, |ring|) := value], from, n + 1) == Window(ring, from, n) + [value]
  { }

  lemma WindowPop<T>(ring: seq<T>, from: nat, n: nat)
    requires from < |ring| && 0 < n <= |ring|
    ensures Window(ring, Wrap(from + 1, |ring|), n - 1) == Window(ring, from, n)[1..]
  { }

  /** The next `n` elements from index `from` on, as often round as that takes. */
  function Round<T>(ring: seq<T>, from: nat, n: nat): (s: seq<T>)
    requires from < |ring|
    ensures |s| == n
    decreases n
  {
    if n == 0 then [] else [ring[from]] + Round(ring, Wrap(from + 1, |ring|), n - 1)
  }

  /** Less than a whole turn is a window. */
  lemma {:induction false} RoundIsWindow<T>(ring: seq<T>, from: nat, n: nat)
    requires from < |ring| && n <= |ring|
    ensures Round(ring, from, n) == Window(ring, from, n)
    decreases n
  {
    if n > 0 {
      WindowPop(ring, from, n);
      RoundIsWindow(ring, Wrap(from + 1, |ring|), n - 1);
      assert Window(ring, from, n)[0] == ring[from];
      assert Window(ring, from, n) == [ring[from]] + Window(ring, from, n)[1..];
    }
  }

  lemma {:induction false} RoundPrefix<T>(ring: seq<T>, from: nat, n: nat, k: nat)
    requires from < |ring| && k <= n
    ensures Round(ring, from, n)[..k] == Round(ring, from, k)
    decreases n
  {
    if k > 0 {
      RoundPrefix(ring, Wrap(from + 1, |ring|), n - 1, k - 1);
      assert ([ring[from]] + Round(ring, Wrap(from + 1, |ring|), n - 1))[..k]
          == [ring[from]] + Round(ring, Wrap(from + 1, |ring|), n - 1)[..k - 1];
    }
  }
}
