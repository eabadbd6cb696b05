/** Neighbours in a circular list, written as a sequence from its first element on. */
module Rings {

  function Succ(i: int, n: int): int { if i + 1 == n then 0 else i + 1 }

  function Pred(i: int, n: int): int { if i == 0 then n - 1 else i - 1 }

  function Without<T>(s: seq<T>, k: nat): seq<T>
    requires k < |s|
  {
    s[..k] + s[k + 1..]
  }

  /** Where the element at index i of the shorter ring and its neighbours come from. */
  lemma WithoutAt<T>(s: seq<T>, k: nat, i: nat)
    requires k < |s| && i < |s| - 1
    ensures var n, r := |s|, Without(s, k);
            var o := if i < k then i else i + 1;
            && r[i] == s[o]
            && r[Succ(i, n - 1)] == s[if Succ(o, n) == k then Succ(k, n) else Succ(o, n)]
            && r[Pred(i, n - 1)] == s[if Pred(o, n) == k then Pred(k, n) else Pred(o, n)]
            && (Succ(o, n) == k <==> o == Pred(k, n)) && (Pred(o, n) == k <==> o == Succ(k, n))
  {}

  lemma WithoutKeeps<T>(s: seq<T>, k: nat, c: nat)
    requires k < |s| && c < |s|
    ensures c != k ==> Without(s, k)[if c < k then c else c - 1] == s[c]
  {}
}
