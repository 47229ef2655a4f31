/** Small facts about sequences, stated generically so that each is proved
    on its own rather than inside a larger proof. */
module Seqs {

  lemma AppendAssoc<T>(a: seq<T>, b: seq<T>, c: seq<T>)
    ensures (a + b) + c == a + (b + c)
  {
  }

  lemma AppendEmpty<T>(a: seq<T>)
    ensures a + [] == a
  {
  }

  lemma InitOfAppend<T>(a: seq<T>, b: seq<T>)
    requires b != []
    ensures (a + b)[..|a + b| - 1] == a + b[..|b| - 1]
    ensures (a + b)[|a + b| - 1] == b[|b| - 1]
  {
  }

  lemma TakeTake<T>(a: seq<T>, n: nat, c: nat)
    requires c <= n <= |a|
    ensures a[..n][..c] == a[..c]
    ensures c < n ==> a[..n][c] == a[c]
  {
  }

  lemma TakeAll<T>(a: seq<T>)
    ensures a[..|a|] == a
  {
  }

  lemma TakeSnoc<T>(a: seq<T>, n: nat)
    requires n < |a|
    ensures a[..n + 1] == a[..n] + [a[n]]
  {
  }

  lemma TakeDrop<T>(a: seq<T>, n: nat)
    requires n <= |a|
    ensures a[..n] + a[n..] == a
  {
  }
}
