/** The render-time ordering of a course's entries by matric number. The
    page compares matrics with a locale- and number-aware string comparison;
    here that comparison is a parameter `leq` ("orders at or before") that is
    assumed only to be a total preorder. */
module MatricOrder {
  import opened Records

  /** `leq` is total and transitive, as a three-way string comparison read
      as "at most zero" is. */
  ghost predicate TotalPreorder(leq: (string, string) -> bool) {
    && (forall a, b :: leq(a, b) || leq(b, a))
    && (forall a, b, c :: leq(a, b) && leq(b, c) ==> leq(a, c))
  }

  /** Every entry's matric orders at or before every later entry's matric. */
  ghost predicate SortedByMatric(xs: seq<Entry>, leq: (string, string) -> bool) {
    forall i, j :: 0 <= i < j < |xs| ==> leq(xs[i].matric, xs[j].matric)
  }

  /** Exchanges two adjacent positions of the array; the entries are the
      same, only their places change. */
  method Swap(a: array<Entry>, i: nat, j: nat)
    requires i < j < a.Length
    modifies a
    ensures a[..] == old(a[..])[i := old(a[j])][j := old(a[i])]
    ensures multiset(a[..]) == old(multiset(a[..]))
  {
    a[i], a[j] := a[j], a[i];
  }

  /** Sorts the array in place by matric (insertion sort by adjacent swaps,
      which only ever moves an entry past a strictly greater one). */
  method SortByMatric(a: array<Entry>, leq: (string, string) -> bool)
    requires TotalPreorder(leq)
    modifies a
    ensures SortedByMatric(a[..], leq)
    ensures multiset(a[..]) == old(multiset(a[..]))
  {
    if a.Length == 0 { return; }
    var i := 1;
    while i < a.Length
      invariant 1 <= i <= a.Length
      invariant SortedByMatric(a[..i], leq)
      invariant multiset(a[..]) == old(multiset(a[..]))
    {
      var j := i;
      while j > 0 && !leq(a[j - 1].matric, a[j].matric)
        invariant 0 <= j <= i
        invariant forall k, l :: 0 <= k < l <= i && l != j ==> leq(a[k].matric, a[l].matric)
        invariant multiset(a[..]) == old(multiset(a[..]))
      {
        Swap(a, j - 1, j);
        j := j - 1;
      }
      i := i + 1;
    }
  }

  /** One course's list sorted by matric, by sorting an array copy in place:
      the result is sorted and holds exactly the same entries. */
  method SortedCopy(xs: seq<Entry>, leq: (string, string) -> bool) returns (ys: seq<Entry>)
    requires TotalPreorder(leq)
    ensures SortedByMatric(ys, leq)
    ensures multiset(ys) == multiset(xs)
  {
    var a := new Entry[|xs|](i requires 0 <= i < |xs| => xs[i]);
    assert a[..] == xs;
    SortByMatric(a, leq);
    ys := a[..];
  }
}
