/**
  Validation findings and the ordering the pipeline imposes on the primary
  parser's report (`rpt.Sort()` in validate.go). The sort belongs to the
  Ignition report library; here it is an insertion sort by an abstract
  integer key, and SortedPermutationUnique shows that, when keys do not tie,
  any sort meeting the same contract yields the same sequence.
*/
module Report {
  /** Severity of a finding. */
  datatype Kind = Error | Warning | Info

  /** One finding; both the Ignition parser's and the fallback validator's entries. */
  datatype Entry = Entry(kind: Kind, message: string, line: int, column: int)

  /** `s` is in non-decreasing order of `key`. */
  predicate SortedBy(key: Entry -> int, s: seq<Entry>) {
    forall i, j :: 0 <= i < j < |s| ==> key(s[i]) <= key(s[j])
  }

  /** Entries of `s` that share a key are identical: the key leaves no tie to break. */
  predicate NoKeyTies(key: Entry -> int, s: seq<Entry>) {
    forall i, j :: 0 <= i < |s| && 0 <= j < |s| && key(s[i]) == key(s[j]) ==> s[i] == s[j]
  }

  /** Places `e` into the sorted sequence `s`, before the first entry whose key is not below its own. */
  function Insert(key: Entry -> int, e: Entry, s: seq<Entry>): (r: seq<Entry>)
    requires SortedBy(key, s)
    ensures SortedBy(key, r)
    ensures multiset(r) == multiset(s) + multiset{e}
    ensures |r| == |s| + 1
    ensures s != [] ==> forall k :: 0 <= k < |r| ==> key(e) <= key(r[k]) || key(s[0]) <= key(r[k])
  {
    if s == [] then [e]
    else if key(e) <= key(s[0]) then [e] + s
    else
      assert s == [s[0]] + s[1..];
      var tail := Insert(key, e, s[1..]);
      assert forall k :: 0 <= k < |tail| ==> key(s[0]) <= key(tail[k]) by {
        if s[1..] != [] {
          assert s[1..][0] == s[1];
        }
      }
      ConsSorted(key, s[0], tail);
      [s[0]] + tail
  }

  /** Putting an entry whose key is not above any other in front keeps a sequence sorted. */
  lemma ConsSorted(key: Entry -> int, x: Entry, t: seq<Entry>)
    requires SortedBy(key, t)
    requires forall k :: 0 <= k < |t| ==> key(x) <= key(t[k])
    ensures SortedBy(key, [x] + t)
  {
    var r := [x] + t;
    forall i, j | 0 <= i < j < |r| ensures key(r[i]) <= key(r[j]) {
      assert r[j] == t[j - 1];
      if i > 0 {
        assert r[i] == t[i - 1];
      }
    }
  }

  /** The report's entries reordered by `key`: sorted, and a permutation of the input. */
  function SortEntries(key: Entry -> int, s: seq<Entry>): (r: seq<Entry>)
    ensures SortedBy(key, r)
    ensures multiset(r) == multiset(s)
    ensures |r| == |s|
  {
    if s == [] then []
    else
      assert s == [s[0]] + s[1..];
      Insert(key, s[0], SortEntries(key, s[1..]))
  }

  /** Sorting a report that is already in order leaves it unchanged. */
  lemma {:induction false} SortEntriesKeepsSorted(key: Entry -> int, s: seq<Entry>)
    requires SortedBy(key, s)
    ensures SortEntries(key, s) == s
  {
    if s != [] {
      assert SortedBy(key, s[1..]);
      SortEntriesKeepsSorted(key, s[1..]);
      if |s| > 1 {
        assert key(s[0]) <= key(s[1]);
      }
    }
  }

  /** Sorting twice is sorting once. */
  lemma SortEntriesIdempotent(key: Entry -> int, s: seq<Entry>)
    ensures SortEntries(key, SortEntries(key, s)) == SortEntries(key, s)
  {
    SortEntriesKeepsSorted(key, SortEntries(key, s));
  }

  /**
    When no two entries share a key, a sequence that is sorted and a
    permutation of the entries is unique: every correct sort returns it.
  */
  lemma {:induction false} SortedPermutationUnique(key: Entry -> int, a: seq<Entry>, b: seq<Entry>)
    requires SortedBy(key, a) && SortedBy(key, b)
    requires multiset(a) == multiset(b)
    requires NoKeyTies(key, a)
    ensures a == b
  {
    if a == [] {
      assert |b| == |multiset(b)| == 0;
    } else {
      assert |b| == |multiset(b)| == |multiset(a)| == |a|;
      SameHead(key, a, b);
      TailProperties(key, a);
      TailProperties(key, b);
      SortedPermutationUnique(key, a[1..], b[1..]);
      assert a == [a[0]] + a[1..] && b == [b[0]] + b[1..];
    }
  }

  /** Dropping the first entry keeps a sequence sorted and tie-free, and removes one copy of it. */
  lemma TailProperties(key: Entry -> int, a: seq<Entry>)
    requires a != []
    ensures SortedBy(key, a) ==> SortedBy(key, a[1..])
    ensures NoKeyTies(key, a) ==> NoKeyTies(key, a[1..])
    ensures multiset(a[1..]) == multiset(a) - multiset{a[0]}
  {
    assert a == [a[0]] + a[1..];
  }

  /** The first entry of a sorted sequence has the least key of all its entries. */
  lemma HeadIsLeast(key: Entry -> int, a: seq<Entry>, x: Entry)
    requires SortedBy(key, a) && x in multiset(a)
    ensures key(a[0]) <= key(x)
  {
    var i :| 0 <= i < |a| && a[i] == x;
  }

  /** Two sorted permutations of one another start with the same entry when keys do not tie. */
  lemma SameHead(key: Entry -> int, a: seq<Entry>, b: seq<Entry>)
    requires SortedBy(key, a) && SortedBy(key, b) && a != [] && b != []
    requires multiset(a) == multiset(b)
    requires NoKeyTies(key, a)
    ensures a[0] == b[0]
  {
    assert a[0] in multiset(a) && b[0] in multiset(b);
    HeadIsLeast(key, a, b[0]);
    HeadIsLeast(key, b, a[0]);
    var j :| 0 <= j < |a| && a[j] == b[0];
    assert key(a[0]) == key(a[j]);
  }

  /** Whatever the key, every correct sort agrees with SortEntries on unique keys. */
  lemma SortEntriesIsTheSort(key: Entry -> int, s: seq<Entry>, r: seq<Entry>)
    requires SortedBy(key, r) && multiset(r) == multiset(s)
    requires NoKeyTies(key, s)
    ensures r == SortEntries(key, s)
  {
    var t := SortEntries(key, s);
    forall i, j | 0 <= i < |t| && 0 <= j < |t| && key(t[i]) == key(t[j]) ensures t[i] == t[j] {
      assert t[i] in multiset(s) && t[j] in multiset(s);
      var i' :| 0 <= i' < |s| && s[i'] == t[i];
      var j' :| 0 <= j' < |s| && s[j'] == t[j];
    }
    SortedPermutationUnique(key, t, r);
  }
}
