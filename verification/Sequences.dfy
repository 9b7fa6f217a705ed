/** Facts about slices that the proofs of several modules need. */
module Sequences {

  lemma SliceOfSuffix<T>(s: seq<T>, i: nat, j: nat)
    requires i + j <= |s|
    ensures s[..i + j] == s[..i] + s[i..][..j]
    ensures s[i + j..] == s[i..][j..]
    ensures s[i..i + j] == s[i..][..j]
  {
    assert s[i..i + j] == s[i..][..j];
  }
}
