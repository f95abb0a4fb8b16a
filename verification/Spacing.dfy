/** Events at least a fixed gap apart, and how many fit in a window of time. */
module Spacing {
  import opened Basics

  predicate Spaced(times: seq<nat>, gap: nat) {
    forall i, j | 0 <= i < j < |times| :: times[i] + gap <= times[j]
  }

  /** How many of the times lie in [from, from + len]. */
  function InWindow(times: seq<nat>, from: nat, len: nat): nat {
    if times == [] then 0
    else
      var t := times[|times| - 1];
      InWindow(times[..|times| - 1], from, len) + (if from <= t <= from + len then 1 else 0)
  }

  /** InWindow counts: it is the number of positions whose time lies in the window. */
  lemma {:induction false} InWindowCounts(times: seq<nat>, from: nat, len: nat)
    ensures InWindow(times, from, len) == |set i | 0 <= i < |times| && from <= times[i] <= from + len|
  {
    if times != [] {
      var n := |times| - 1;
      InWindowCounts(times[..n], from, len);
      var before := set i | 0 <= i < |times[..n]| && from <= times[..n][i] <= from + len;
      var all := set i | 0 <= i < |times| && from <= times[i] <= from + len;
      assert all == before + if from <= times[n] <= from + len then {n} else {};
    }
  }

  /** A window that ends before all of the times, or starts after them, is empty. */
  lemma {:induction false} NoneInside(times: seq<nat>, from: nat, len: nat, before: nat)
    requires forall i | 0 <= i < |times| :: times[i] <= before
    ensures before < from ==> InWindow(times, from, len) == 0
    ensures from <= before < from + len ==> InWindow(times, from, len) == InWindow(times, from, before - from)
  {
    if times != [] {
      NoneInside(times[..|times| - 1], from, len, before);
    }
  }

  /** The times inside a window span all the gaps between them. */
  lemma {:induction false} WindowSpan(times: seq<nat>, gap: nat, from: nat, len: nat)
    requires gap > 0 && Spaced(times, gap)
    ensures InWindow(times, from, len) > 0 ==> (InWindow(times, from, len) - 1) * gap <= len
  {
    if times != [] {
      var n := |times| - 1;
      var t, init := times[n], times[..n];
      if !(from <= t <= from + len) {
        WindowSpan(init, gap, from, len);
      } else if n > 0 {
        assert times[0] + gap <= t && forall i | 0 <= i < n :: init[i] <= t - gap;
        NoneInside(init, from, len, t - gap);
        if from + gap <= t {
          var rest := t - gap - from;
          WindowSpan(init, gap, from, rest);
          if InWindow(init, from, rest) > 0 {
            OneMore(InWindow(init, from, rest), gap);
          }
        }
      }
    }
  }

  lemma OneMore(k: nat, gap: nat)
    requires k > 0
    ensures k * gap == (k - 1) * gap + gap
  {
  }

  /** A window of length len holds at most len / gap + 1 of them. */
  lemma WindowBound(times: seq<nat>, gap: nat, from: nat, len: nat)
    requires gap > 0 && Spaced(times, gap)
    ensures InWindow(times, from, len) <= len / gap + 1
  {
    WindowSpan(times, gap, from, len);
    var k := InWindow(times, from, len);
    if k > 0 {
      AtMostQuotient(k - 1, gap, len);
    }
  }

  lemma AtMostQuotient(k: nat, gap: nat, len: nat)
    requires gap > 0 && k * gap <= len
    ensures k <= len / gap
  {
    var q := len / gap;
    assert len < q * gap + gap;
    if k > q {
      TimesMonotone(q + 1, k, gap);
    }
  }
}
