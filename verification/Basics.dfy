/**
What several components share: optional values, and sequences with one element taken out.
*/
module Basics {
  datatype Option<+T> = None | Some(value: T)

  function Without<T>(s: seq<T>, i: nat): (w: seq<T>)
    requires i < |s|
    ensures |w| == |s| - 1
  {
    s[..i] + s[i + 1..]
  }

  lemma WithoutAt<T>(s: seq<T>, i: nat)
    requires i < |s|
    ensures forall j :: 0 <= j < |s| - 1 ==> Without(s, i)[j] == s[if j < i then j else j + 1]
    ensures forall x :: x in Without(s, i) ==> x in s
  {
  }
}
