/** The duplicate semantics of pandas `duplicated`, over any sequence whose
    elements compare by value: rows of a table, or its columns once
    transposed. Equality is the datatype's, so a missing cell equals a
    missing cell, as pandas treats NaN when it looks for duplicates. */
module Duplicates {
  import opened Masks

  /** `duplicated(keep="first")`: marks each element equal to an earlier one. */
  function DuplicatedKeepFirst<T(==)>(s: seq<T>): (m: seq<bool>)
    ensures |m| == |s|
    ensures forall i :: 0 <= i < |s| ==> (m[i] <==> exists j :: 0 <= j < i && s[j] == s[i])
  {
    seq(|s|, i requires 0 <= i < |s| => s[i] in s[..i])
  }

  /** `duplicated(keep=False)`: marks every element that is not unique. */
  function DuplicatedKeepAll<T(==)>(s: seq<T>): (m: seq<bool>)
    ensures |m| == |s|
    ensures forall i :: 0 <= i < |s| ==> (m[i] <==> exists j :: 0 <= j < |s| && j != i && s[j] == s[i])
  {
    seq(|s|, i requires 0 <= i < |s| => s[i] in s[..i] || s[i] in s[i + 1..])
  }

  /** `drop_duplicates()`: keep the first occurrence of each distinct element. */
  function DropDuplicates<T(==)>(s: seq<T>): (r: seq<T>)
    ensures |r| <= |s|
    ensures forall k :: 0 <= k < |r| ==> r[k] in s
  {
    Select(s, Negate(DuplicatedKeepFirst(s)))
  }

  /** `duplicated().sum()`: the redundant extras, first occurrences excluded. */
  function DuplicateCount<T(==)>(s: seq<T>): (n: nat)
    ensures n <= |s|
    ensures s != [] ==> n < |s|
  {
    var m := DuplicatedKeepFirst(s);
    CountNegate(m);
    CountZero(Negate(m));
    assert s != [] ==> Negate(m)[0];
    CountTrue(m)
  }

  predicate Distinct<T(==)>(s: seq<T>)
  {
    forall i, j :: 0 <= i < j < |s| ==> s[i] != s[j]
  }

  /** The index of the first occurrence of `x` in `s`. */
  function FirstIndex<T(==)>(s: seq<T>, x: T): (i: nat)
    requires x in s
    ensures i < |s| && s[i] == x && x !in s[..i]
  {
    if s[0] == x then 0
    else
      var j := FirstIndex(s[1..], x);
      assert s[1..][..j] == s[1..j + 1];
      j + 1
  }

  lemma FirstIndexUnique<T>(s: seq<T>, i: nat)
    requires i < |s| && s[i] !in s[..i]
    ensures FirstIndex(s, s[i]) == i
  {
  }

  /** An element is kept by `DropDuplicates` exactly at its first occurrence. */
  lemma KeptAreFirstOccurrences<T>(s: seq<T>, k: nat)
    requires k < |DropDuplicates(s)|
    ensures var p := Positions(Negate(DuplicatedKeepFirst(s)));
            DropDuplicates(s)[k] == s[p[k]] && FirstIndex(s, s[p[k]]) == p[k]
  {
    var p := Positions(Negate(DuplicatedKeepFirst(s)));
    FirstIndexUnique(s, p[k]);
  }

  /** No two elements of the result are equal. */
  lemma DropDuplicatesDistinct<T>(s: seq<T>)
    ensures Distinct(DropDuplicates(s))
  {
    var r, p := DropDuplicates(s), Positions(Negate(DuplicatedKeepFirst(s)));
    forall i, j | 0 <= i < j < |r| ensures r[i] != r[j] {
      KeptAreFirstOccurrences(s, i);
      KeptAreFirstOccurrences(s, j);
    }
  }

  /** The result holds exactly the elements of the input. */
  lemma DropDuplicatesSameElements<T>(s: seq<T>)
    ensures forall x :: x in DropDuplicates(s) <==> x in s
  {
    var keep := Negate(DuplicatedKeepFirst(s));
    forall x ensures x in DropDuplicates(s) <==> x in s {
      SelectMember(s, keep, x);
      if x in s {
        var i := FirstIndex(s, x);
        assert keep[i];
      }
    }
  }

  /** The result lists the distinct elements in the order of their first occurrence. */
  lemma DropDuplicatesFirstOccurrenceOrder<T>(s: seq<T>)
    ensures var r := DropDuplicates(s);
            forall i, j :: 0 <= i < j < |r| ==> r[i] in s && r[j] in s && FirstIndex(s, r[i]) < FirstIndex(s, r[j])
  {
    var r := DropDuplicates(s);
    forall i, j | 0 <= i < j < |r|
      ensures r[i] in s && r[j] in s && FirstIndex(s, r[i]) < FirstIndex(s, r[j])
    {
      KeptAreFirstOccurrences(s, i);
      KeptAreFirstOccurrences(s, j);
    }
  }

  /** The result is shorter than the input by exactly the duplicate count. */
  lemma DropDuplicatesLength<T>(s: seq<T>)
    ensures |DropDuplicates(s)| == |s| - DuplicateCount(s)
  {
    CountNegate(DuplicatedKeepFirst(s));
  }

  /** The duplicate count is zero exactly when the elements are pairwise distinct. */
  lemma DuplicateCountZero<T>(s: seq<T>)
    ensures DuplicateCount(s) == 0 <==> Distinct(s)
  {
    var m := DuplicatedKeepFirst(s);
    CountZero(m);
    if Distinct(s) {
      forall i | 0 <= i < |s| ensures !m[i] {
      }
    } else {
      var i, j :| 0 <= i < j < |s| && s[i] == s[j];
      assert s[..j][i] == s[j];
      assert m[j];
    }
  }

  /** On a sequence without duplicates, `DropDuplicates` changes nothing. */
  lemma DropDuplicatesOfDistinct<T>(s: seq<T>)
    requires Distinct(s)
    ensures DropDuplicates(s) == s
  {
    DuplicateCountZero(s);
    CountNegate(DuplicatedKeepFirst(s));
    SelectAll(s, Negate(DuplicatedKeepFirst(s)));
  }

  /** Dropping duplicates twice is the same as dropping them once. */
  lemma DropDuplicatesIdempotent<T>(s: seq<T>)
    ensures DropDuplicates(DropDuplicates(s)) == DropDuplicates(s)
  {
    DropDuplicatesDistinct(s);
    DropDuplicatesOfDistinct(DropDuplicates(s));
  }

  /** Any element marked by `keep=False` has a copy that `keep="first"` marks. */
  lemma KeepAllHasKeepFirstWitness<T>(s: seq<T>, i: nat)
    requires i < |s| && DuplicatedKeepAll(s)[i]
    ensures exists l :: 0 <= l < |s| && DuplicatedKeepFirst(s)[l]
  {
    var j :| 0 <= j < |s| && j != i && s[j] == s[i];
    if j < i {
      assert DuplicatedKeepFirst(s)[i];
    } else {
      assert s[i] == s[j];
      assert DuplicatedKeepFirst(s)[j];
    }
  }

  /** The keep-all marks are a strict superset of the keep-first marks whenever
      there is any duplicate: the first member of a duplicated group is marked
      by `keep=False` but not counted by `keep="first"`. */
  lemma KeepAllCoversKeepFirst<T>(s: seq<T>)
    ensures forall i :: 0 <= i < |s| && DuplicatedKeepFirst(s)[i] ==> DuplicatedKeepAll(s)[i]
    ensures DuplicateCount(s) <= CountTrue(DuplicatedKeepAll(s))
    ensures DuplicateCount(s) > 0 ==> DuplicateCount(s) < CountTrue(DuplicatedKeepAll(s))
    ensures DuplicateCount(s) == 0 <==> CountTrue(DuplicatedKeepAll(s)) == 0
  {
    var first, all := DuplicatedKeepFirst(s), DuplicatedKeepAll(s);
    forall i | 0 <= i < |s| && first[i] ensures all[i] {
      var j :| 0 <= j < i && s[j] == s[i];
    }
    CountZero(first);
    CountZero(all);
    if i :| 0 <= i < |s| && all[i] {
      KeepAllHasKeepFirstWitness(s, i);
    }
    if j :| 0 <= j < |s| && first[j] {
      var i := FirstIndex(s, s[j]);
      forall k | 0 <= k < i ensures s[k] != s[i] {
        assert s[..i][k] == s[k];
      }
      assert !first[i];
      assert i != j;
      assert all[i];
    }
    CountMonotone(first, all);
  }

  /** An element `keep=False` selects occurs at two positions of the input. */
  lemma KeepAllSelected<T>(s: seq<T>, x: T)
    requires x in Select(s, DuplicatedKeepAll(s))
    ensures exists i, j :: 0 <= i < j < |s| && s[i] == x && s[j] == x
  {
    var all := DuplicatedKeepAll(s);
    SelectMember(s, all, x);
    var i :| 0 <= i < |s| && all[i] && s[i] == x;
    var j :| 0 <= j < |s| && j != i && s[j] == s[i];
    if i < j {
      assert s[i] == x && s[j] == x;
    } else {
      assert s[j] == x && s[i] == x;
    }
  }

  /** What `s[s.duplicated(keep=False)]` holds: every element occurs at least
      twice in `s`, every element `keep="first"` marks is among them, and
      there are more of them than the keep-first count whenever that is
      positive, because the first member of each group is there too. */
  lemma KeepAllSelection<T>(s: seq<T>)
    ensures var sel := Select(s, DuplicatedKeepAll(s));
            && (DuplicateCount(s) > 0 ==> |sel| > DuplicateCount(s))
            && (forall i :: 0 <= i < |s| && DuplicatedKeepFirst(s)[i] ==> s[i] in sel)
            && (forall x :: x in sel ==> exists i, j :: 0 <= i < j < |s| && s[i] == x && s[j] == x)
  {
    var all := DuplicatedKeepAll(s);
    var sel := Select(s, all);
    KeepAllCoversKeepFirst(s);
    forall i | 0 <= i < |s| && DuplicatedKeepFirst(s)[i] ensures s[i] in sel {
      SelectMember(s, all, s[i]);
    }
    forall x | x in sel ensures exists i, j :: 0 <= i < j < |s| && s[i] == x && s[j] == x {
      KeepAllSelected(s, x);
    }
  }
}
