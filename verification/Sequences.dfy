/** Putting an element into a sequence and taking one out. */
module Sequences {

  function InsertAt<T>(s: seq<T>, k: nat, e: T): seq<T>
    requires k <= |s|
  {
    s[..k] + [e] + s[k..]
  }

  function RemoveAt<T>(s: seq<T>, k: nat): seq<T>
    requires k < |s|
  {
    s[..k] + s[k + 1..]
  }

  lemma Inserted<T>(s: seq<T>, k: nat, e: T)
    requires k <= |s|
    ensures var t := InsertAt(s, k, e);
      && |t| == |s| + 1 && t[k] == e
      && (forall j :: 0 <= j < k ==> t[j] == s[j])
      && (forall j :: k < j < |t| ==> t[j] == s[j - 1])
  {
  }

  lemma Removed<T>(s: seq<T>, k: nat)
    requires k < |s|
    ensures |RemoveAt(s, k)| == |s| - 1
    ensures forall j :: 0 <= j < |s| - 1 ==> RemoveAt(s, k)[j] == s[if j < k then j else j + 1]
  {
  }
}
