/** Boolean masks and selection by mask: the shape of every pandas filter
    the cleaner uses (`df[mask]`, `df.loc[:, mask]`, `mask.sum()`). */
module Masks {

  /** Number of `true` entries of a mask (pandas `mask.sum()`). */
  function CountTrue(m: seq<bool>): (n: nat)
    ensures n <= |m|
  {
    if m == [] then 0
    else CountTrue(m[..|m| - 1]) + (if m[|m| - 1] then 1 else 0)
  }

  /** The element-wise negation of a mask (pandas `~mask`). */
  function Negate(m: seq<bool>): (r: seq<bool>)
    ensures |r| == |m|
    ensures forall i :: 0 <= i < |m| ==> r[i] != m[i]
  {
    seq(|m|, i requires 0 <= i < |m| => !m[i])
  }

  /** The indices at which a mask is `true`, in increasing order. */
  function Positions(keep: seq<bool>): (p: seq<nat>)
    ensures |p| == CountTrue(keep)
    ensures forall k :: 0 <= k < |p| ==> p[k] < |keep| && keep[p[k]]
    ensures forall k, l :: 0 <= k < l < |p| ==> p[k] < p[l]
  {
    if keep == [] then []
    else
      var init := keep[..|keep| - 1];
      assert forall i :: 0 <= i < |init| ==> init[i] == keep[i];
      var p := Positions(init);
      if keep[|keep| - 1] then p + [|keep| - 1] else p
  }

  /** The elements of `s` at which `keep` is `true`, in their original order. */
  function Select<T>(s: seq<T>, keep: seq<bool>): (r: seq<T>)
    requires |s| == |keep|
    ensures |r| == CountTrue(keep)
    ensures forall k :: 0 <= k < |r| ==> r[k] == s[Positions(keep)[k]]
  {
    if s == [] then []
    else
      var init, kinit := s[..|s| - 1], keep[..|keep| - 1];
      assert forall i :: 0 <= i < |init| ==> init[i] == s[i];
      var r := Select(init, kinit);
      var p := Positions(kinit);
      assert Positions(keep) == if keep[|keep| - 1] then p + [|keep| - 1] else p;
      if keep[|keep| - 1] then r + [s[|s| - 1]] else r
  }

  lemma {:induction false} CountNegate(m: seq<bool>)
    ensures CountTrue(Negate(m)) == |m| - CountTrue(m)
  {
    if m != [] {
      var init := m[..|m| - 1];
      CountNegate(init);
      assert Negate(m)[..|m| - 1] == Negate(init);
    }
  }

  /** A mask with no `true` entry counts zero, and conversely. */
  lemma {:induction false} CountZero(m: seq<bool>)
    ensures CountTrue(m) == 0 <==> forall i :: 0 <= i < |m| ==> !m[i]
  {
    if m != [] {
      var init := m[..|m| - 1];
      CountZero(init);
      assert forall i :: 0 <= i < |init| ==> init[i] == m[i];
    }
  }

  /** Selecting with a mask that is `true` everywhere (it counts as many
      `true` entries as it has) keeps everything. */
  lemma {:induction false} SelectAll<T>(s: seq<T>, keep: seq<bool>)
    requires |s| == |keep|
    requires CountTrue(keep) == |keep|
    ensures Select(s, keep) == s
  {
    if s != [] {
      var init, kinit := s[..|s| - 1], keep[..|keep| - 1];
      assert keep[|keep| - 1] && CountTrue(kinit) == |kinit|;
      SelectAll(init, kinit);
      SelectLastKept(s, keep);
    }
  }

  /** When the last entry is kept and everything before it survives
      selection, everything survives. */
  lemma SelectLastKept<T>(s: seq<T>, keep: seq<bool>)
    requires |s| == |keep| > 0 && keep[|keep| - 1]
    requires Select(s[..|s| - 1], keep[..|keep| - 1]) == s[..|s| - 1]
    ensures Select(s, keep) == s
  {
    SelectLast(s, keep);
    LastSplit(s);
  }

  /** Every kept index is listed. */
  lemma {:induction false} PositionsCover(keep: seq<bool>, i: nat)
    requires i < |keep| && keep[i]
    ensures i in Positions(keep)
  {
    var init := keep[..|keep| - 1];
    if i < |init| {
      PositionsCover(init, i);
    }
  }

  lemma LastSplit<T>(s: seq<T>)
    requires |s| > 0
    ensures s == s[..|s| - 1] + [s[|s| - 1]]
  {
  }

  /** Selection peels off the last entry. */
  lemma SelectLast<T>(s: seq<T>, keep: seq<bool>)
    requires |s| == |keep| > 0
    ensures Select(s, keep) == Select(s[..|s| - 1], keep[..|keep| - 1]) + (if keep[|keep| - 1] then [s[|s| - 1]] else [])
  {
  }

  /** The mask `[true, false, true]` keeps the outer two of three elements. */
  lemma SelectFirstAndLast<T>(s: seq<T>, keep: seq<bool>)
    requires |s| == 3 && keep == [true, false, true]
    ensures Select(s, keep) == [s[0], s[2]]
  {
    SelectLast(s, keep);
    SelectLast(s[..2], keep[..2]);
    SelectLast(s[..1], keep[..1]);
    assert s[..2][..1] == s[..1] && keep[..2][..1] == keep[..1];
    assert Select(s[..1][..0], keep[..1][..0]) == [];
  }

  /** An element is selected exactly when some index carrying it is kept. */
  lemma SelectMember<T>(s: seq<T>, keep: seq<bool>, x: T)
    requires |s| == |keep|
    ensures x in Select(s, keep) <==> exists i :: 0 <= i < |s| && keep[i] && s[i] == x
  {
    var r, p := Select(s, keep), Positions(keep);
    if x in r {
      var k :| 0 <= k < |r| && r[k] == x;
      assert keep[p[k]] && s[p[k]] == x;
    }
    if i :| 0 <= i < |s| && keep[i] && s[i] == x {
      PositionsCover(keep, i);
      var k :| 0 <= k < |p| && p[k] == i;
      assert r[k] == x;
    }
  }

  /** A mask that implies another, and misses one of its entries, counts strictly less. */
  lemma {:induction false} CountMonotone(a: seq<bool>, b: seq<bool>)
    requires |a| == |b|
    requires forall i :: 0 <= i < |a| && a[i] ==> b[i]
    ensures CountTrue(a) <= CountTrue(b)
    ensures (exists i :: 0 <= i < |a| && b[i] && !a[i]) ==> CountTrue(a) < CountTrue(b)
  {
    if a != [] {
      var ai, bi := a[..|a| - 1], b[..|b| - 1];
      assert forall i :: 0 <= i < |ai| ==> ai[i] == a[i] && bi[i] == b[i];
      CountMonotone(ai, bi);
      if i :| 0 <= i < |a| && b[i] && !a[i] {
        if i < |ai| {
          assert bi[i] && !ai[i];
        }
      }
    }
  }
}
