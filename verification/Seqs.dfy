/** Sequence identities by name. */
module Seqs {

  lemma {:induction false} Split<T>(s: seq<T>)
    requires s != []
    ensures s == s[..|s| - 1] + [s[|s| - 1]]
  {
  }

  lemma {:induction false} Snoc<T>(s: seq<T>, x: T)
    ensures |s + [x]| == |s| + 1 && (s + [x])[..|s|] == s && (s + [x])[|s|] == x
  {
  }

  lemma {:induction false} Assoc<T>(a: seq<T>, b: seq<T>, c: seq<T>)
    ensures (a + b) + c == a + (b + c)
    ensures a + [] == a && [] + a == a && [] + b == b
  {
  }

  lemma {:induction false} SliceEqual<T>(a: seq<T>, b: seq<T>, lo: nat, hi: nat)
    requires lo <= hi <= |a| && hi <= |b| && forall k :: lo <= k < hi ==> a[k] == b[k]
    ensures a[lo..hi] == b[lo..hi]
  {
  }

  /** The parts of a record, cut out again. */
  lemma {:induction false} SevenParts<T>(a: seq<T>, b: seq<T>, c: seq<T>, d: seq<T>, e: seq<T>, f: seq<T>, g: seq<T>)
    ensures var s := a + b + c + d + e + f + g;
            var i, j, k, m, n := |a|, |a| + |b|, |a| + |b| + |c|, |a| + |b| + |c| + |d|, |a| + |b| + |c| + |d| + |e|;
            && s[..i] == a && s[i..j] == b && s[j..k] == c && s[k..m] == d && s[m..n] == e && s[n..n + |f|] == f
            && s[i..m] == b + c + d
  {
  }

  lemma {:induction false} SixSlices<T>(s: seq<T>, i: nat, j: nat, k: nat, m: nat, n: nat)
    requires i <= j <= k <= m <= n <= |s|
    ensures s == s[..i] + s[i..j] + s[j..k] + s[k..m] + s[m..n] + s[n..]
  {
  }

  /** The front of s, in consecutive pieces. */
  lemma {:induction false} ThreeSlices<T>(s: seq<T>, h: nat, i: nat, j: nat, k: nat)
    requires h <= i <= j <= k <= |s|
    ensures s[h..k] == s[h..i] + s[i..j] + s[j..k]
  {
  }

  lemma {:induction false} PrefixSlices<T>(s: seq<T>, i: nat, j: nat, k: nat, m: nat, n: nat, e: nat)
    requires i <= j <= k <= m <= n <= e <= |s|
    ensures s[..e] == s[..i] + s[i..j] + s[j..k] + s[k..m] + s[m..n] + s[n..e]
  {
  }

  lemma {:induction false} IsPrefix<T>(a: seq<T>, s: seq<T>)
    ensures a <= s <==> |a| <= |s| && s[..|a|] == a
    ensures a <= s ==> s == a + s[|a|..]
  {
  }
}
