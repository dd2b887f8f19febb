/** In-place local updates of a configuration, shared by the Spin and Boson spaces:
    `v[tochange[k]] := newconf[k]` for k = 0, 1, ... in list order. */
module Configurations {

  /** The configuration after the first |tochange| writes, applied in order. */
  function Apply(v: seq<real>, tochange: seq<int>, newconf: seq<real>): (r: seq<real>)
    requires forall k :: 0 <= k < |tochange| ==> 0 <= tochange[k] < |v|
    requires |tochange| <= |newconf|
    ensures |r| == |v|
    decreases |tochange|
  {
    if tochange == [] then v
    else
      var n := |tochange| - 1;
      Apply(v, tochange[..n], newconf)[tochange[n] := newconf[n]]
  }

  /** A site that is not listed keeps its value. */
  lemma {:induction false} ApplyUnlisted(v: seq<real>, tochange: seq<int>, newconf: seq<real>, j: int)
    requires forall k :: 0 <= k < |tochange| ==> 0 <= tochange[k] < |v|
    requires |tochange| <= |newconf|
    requires 0 <= j < |v| && j !in tochange
    ensures Apply(v, tochange, newconf)[j] == v[j]
    decreases |tochange|
  {
    if tochange != [] {
      var n := |tochange| - 1;
      assert j != tochange[n];
      assert j !in tochange[..n];
      ApplyUnlisted(v, tochange[..n], newconf, j);
    }
  }

  /** A listed site ends with the value of its last occurrence in the list. */
  lemma {:induction false} ApplyLastWrite(v: seq<real>, tochange: seq<int>, newconf: seq<real>, k: int)
    requires forall m :: 0 <= m < |tochange| ==> 0 <= tochange[m] < |v|
    requires |tochange| <= |newconf|
    requires 0 <= k < |tochange|
    requires forall m :: k < m < |tochange| ==> tochange[m] != tochange[k]
    ensures Apply(v, tochange, newconf)[tochange[k]] == newconf[k]
    decreases |tochange|
  {
    var n := |tochange| - 1;
    if k < n {
      assert tochange[n] != tochange[k];
      ApplyLastWrite(v, tochange[..n], newconf, k);
    }
  }

  /** The write loop of UpdateConf: v(tochange[i]) = newconf[i] for each listed site. */
  method WriteSites(v: array<real>, tochange: seq<int>, newconf: seq<real>)
    requires forall k :: 0 <= k < |tochange| ==> 0 <= tochange[k] < v.Length
    requires |tochange| <= |newconf|
    modifies v
    ensures v[..] == Apply(old(v[..]), tochange, newconf)
  {
    var i := 0;
    while i < |tochange|
      invariant 0 <= i <= |tochange|
      invariant v[..] == Apply(old(v[..]), tochange[..i], newconf)
    {
      v[tochange[i]] := newconf[i];
      assert tochange[..i + 1][..i] == tochange[..i];
      i := i + 1;
    }
    assert tochange[..i] == tochange;
  }
}
