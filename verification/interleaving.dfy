/**
 The reference reading of a template's output, independent of the loop that
 produces it: static fragments and dynamic parts strictly alternate, starting
 and ending with a fragment. Evens and Odds take such a sequence apart again.
 */
module Interleaving {

  /** `f[0], v[0], f[1], v[1], ..., v[n-1], f[n]`. */
  function Interleave<T>(frags: seq<T>, vals: seq<T>): (out: seq<T>)
    requires |frags| == |vals| + 1
    ensures |out| == 2 * |vals| + 1
    decreases |vals|
  {
    if |vals| == 0 then frags else [frags[0], vals[0]] + Interleave(frags[1..], vals[1..])
  }

  /** The elements at even positions. */
  function Evens<T>(s: seq<T>): (r: seq<T>)
    ensures |r| == (|s| + 1) / 2
    decreases |s|
  {
    if |s| == 0 then [] else if |s| == 1 then [s[0]] else [s[0]] + Evens(s[2..])
  }

  /** The elements at odd positions. */
  function Odds<T>(s: seq<T>): (r: seq<T>)
    ensures |r| == |s| / 2
    decreases |s|
  {
    if |s| < 2 then [] else [s[1]] + Odds(s[2..])
  }

  /** Position-wise reading: fragment `j/2` at even `j`, value `j/2` at odd `j`. */
  lemma {:induction false} InterleaveAt<T>(frags: seq<T>, vals: seq<T>, j: nat)
    requires |frags| == |vals| + 1
    requires j < 2 * |vals| + 1
    ensures j % 2 == 0 ==> Interleave(frags, vals)[j] == frags[j / 2]
    ensures j % 2 == 1 ==> Interleave(frags, vals)[j] == vals[j / 2]
    decreases |vals|
  {
    if |vals| > 0 && j >= 2 {
      InterleaveAt(frags[1..], vals[1..], j - 2);
    }
  }

  /** Taking the even positions of an interleaving gives back the fragments. */
  lemma {:induction false} EvensOfInterleave<T>(frags: seq<T>, vals: seq<T>)
    requires |frags| == |vals| + 1
    ensures Evens(Interleave(frags, vals)) == frags
    decreases |vals|
  {
    if |vals| > 0 {
      var rest := Interleave(frags[1..], vals[1..]);
      assert ([frags[0], vals[0]] + rest)[2..] == rest;
      EvensOfInterleave(frags[1..], vals[1..]);
      assert frags == [frags[0]] + frags[1..];
    }
  }

  /** Taking the odd positions of an interleaving gives back the values. */
  lemma {:induction false} OddsOfInterleave<T>(frags: seq<T>, vals: seq<T>)
    requires |frags| == |vals| + 1
    ensures Odds(Interleave(frags, vals)) == vals
    decreases |vals|
  {
    if |vals| > 0 {
      var rest := Interleave(frags[1..], vals[1..]);
      assert ([frags[0], vals[0]] + rest)[2..] == rest;
      OddsOfInterleave(frags[1..], vals[1..]);
      assert vals == [vals[0]] + vals[1..];
    }
  }

  /** Every odd-length sequence is the interleaving of its even and odd positions. */
  lemma {:induction false} InterleaveOfSplit<T>(s: seq<T>)
    requires |s| % 2 == 1
    ensures |Evens(s)| == |Odds(s)| + 1
    ensures Interleave(Evens(s), Odds(s)) == s
    decreases |s|
  {
    if |s| > 1 {
      InterleaveOfSplit(s[2..]);
      assert Evens(s)[1..] == Evens(s[2..]);
      assert Odds(s)[1..] == Odds(s[2..]);
      assert s == [s[0], s[1]] + s[2..];
    }
  }
}
