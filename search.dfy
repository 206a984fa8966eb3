/**
 * First-match search over a sequence of verdicts: both parsers stop at the
 * first line that settles the result, and the group lookup at the first
 * line that names the group.
 */
module Search {
  import opened Optional

  /** The first index at or after `from` whose verdict is true. */
  function FirstTrue(bs: seq<bool>, from: nat): (k: Option<nat>)
    requires from <= |bs|
    ensures k.Some? ==> from <= k.value < |bs| && bs[k.value]
    ensures forall m :: from <= m < (if k.Some? then k.value else |bs|) ==> !bs[m]
    decreases |bs| - from
  {
    if from == |bs| then None
    else if bs[from] then Some(from)
    else FirstTrue(bs, from + 1)
  }

  /** Starting the search anywhere before the first true verdict finds the same one. */
  lemma {:induction false} FirstTrueFrom(bs: seq<bool>, from: nat, i: nat)
    requires from <= i <= |bs|
    requires forall m :: from <= m < i ==> !bs[m]
    ensures FirstTrue(bs, from) == FirstTrue(bs, i)
    decreases i - from
  {
    if from < i {
      assert !bs[from];
      FirstTrueFrom(bs, from + 1, i);
    }
  }

  /** Verdicts that agree with a shorter sequence on its whole length find its first true verdict. */
  lemma FirstTrueExtend(a: seq<bool>, c: seq<bool>)
    requires |a| <= |c| && c[..|a|] == a && FirstTrue(a, 0).Some?
    ensures FirstTrue(c, 0) == FirstTrue(a, 0)
  {
    var k := FirstTrue(a, 0).value;
    assert c[k] == a[k];
    forall m | 0 <= m < k
      ensures !c[m]
    {
      assert c[m] == a[m];
    }
    FirstTrueFrom(c, 0, k);
  }

  /** The search from `n + i` is the search of `c[n..]` from `i`, shifted by `n`. */
  lemma {:induction false} FirstTrueShift(c: seq<bool>, n: nat, i: nat)
    requires n + i <= |c|
    ensures var d := FirstTrue(c[n..], i);
      FirstTrue(c, n + i) == if d.Some? then Some(n + d.value) else None
    decreases |c| - n - i
  {
    if n + i < |c| {
      assert c[n..][i] == c[n + i];
      if !c[n + i] {
        FirstTrueShift(c, n, i + 1);
      }
    }
  }

  /** Behind a run of false verdicts, the search is the search of what follows, shifted. */
  lemma FirstTrueAfter(c: seq<bool>, d: seq<bool>, n: nat)
    requires n <= |c| && c[n..] == d
    requires forall m :: 0 <= m < n ==> !c[m]
    ensures FirstTrue(c, 0) == if FirstTrue(d, 0).Some? then Some(n + FirstTrue(d, 0).value) else None
  {
    FirstTrueFrom(c, 0, n);
    FirstTrueShift(c, n, 0);
  }
}
