/** Facts about sequence concatenation and prefixes, stated once so that
    loops over sequences can cite them. */
module Seqs {
  lemma Assoc<T>(s: seq<T>, t: seq<T>, u: seq<T>)
    ensures (s + t) + u == s + (t + u)
  {
  }

  lemma TakeSnoc<T>(s: seq<T>, k: nat)
    requires k < |s|
    ensures s[..k + 1] == s[..k] + [s[k]]
  {
  }

  lemma AppendNil<T>(s: seq<T>)
    ensures s + [] == s
  {
  }

  lemma InConcat<T>(x: T, s: seq<T>, t: seq<T>)
    ensures x in s + t <==> x in s || x in t
  {
  }

  /** Element `j` of `s` with element `d` removed. */
  lemma DropAt<T>(s: seq<T>, d: nat, j: nat)
    requires d < |s| && j < |s| - 1
    ensures (s[..d] + s[d + 1..])[j] == if j < d then s[j] else s[j + 1]
  {
  }
}
