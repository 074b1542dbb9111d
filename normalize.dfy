/**
  The normalizer of the validation pipeline: every carriage-return byte is
  removed from the raw input, all occurrences of it, before any parser sees
  it (validate.go, lines 111 and 138).
*/
module Normalization {
  newtype byte = x: int | 0 <= x < 256

  type Bytes = seq<byte>

  /** The carriage-return byte, '\r'. */
  const CR: byte := 13

  /** The input with every carriage return removed. */
  function Normalize(s: Bytes): (r: Bytes)
    ensures |r| <= |s|
    ensures forall i :: 0 <= i < |r| ==> r[i] != CR
    ensures forall b :: b != CR ==> multiset(r)[b] == multiset(s)[b]
  {
    if s == [] then []
    else
      assert s == [s[0]] + s[1..];
      if s[0] == CR then Normalize(s[1..]) else [s[0]] + Normalize(s[1..])
  }

  /** Positions of `s` that do not hold a carriage return, in increasing order. */
  function KeptPositions(s: Bytes): (p: seq<nat>)
    ensures forall k :: 0 <= k < |p| ==> p[k] < |s| && s[p[k]] != CR
    ensures forall k, l :: 0 <= k < l < |p| ==> p[k] < p[l]
    ensures forall i :: 0 <= i < |s| && s[i] != CR ==> i in p
  {
    if s == [] then []
    else
      var init := s[..|s| - 1];
      assert forall i :: 0 <= i < |init| ==> init[i] == s[i];
      KeptPositions(init) + (if s[|s| - 1] != CR then [|s| - 1] else [])
  }

  /** Normalizing a concatenation normalizes each part. */
  lemma {:induction false} NormalizeAppend(a: Bytes, b: Bytes)
    ensures Normalize(a + b) == Normalize(a) + Normalize(b)
  {
    if a == [] {
      assert a + b == b;
    } else {
      assert (a + b)[0] == a[0] && (a + b)[1..] == a[1..] + b;
      NormalizeAppend(a[1..], b);
    }
  }

  /**
    Normalization keeps exactly the bytes that are not carriage returns, in
    their original order: its output is the input read at KeptPositions.
  */
  lemma {:induction false} NormalizeSelectsKept(s: Bytes)
    ensures |Normalize(s)| == |KeptPositions(s)|
    ensures forall k :: 0 <= k < |Normalize(s)| ==> Normalize(s)[k] == s[KeptPositions(s)[k]]
  {
    if s != [] {
      var init, last := s[..|s| - 1], s[|s| - 1];
      assert s == init + [last];
      NormalizeAppend(init, [last]);
      assert [last][1..] == [];
      NormalizeSelectsKept(init);
      assert forall i :: 0 <= i < |init| ==> init[i] == s[i];
    }
  }

  /** An input is left unchanged exactly when it holds no carriage return. */
  lemma {:induction false} NormalizeFixedPoint(s: Bytes)
    ensures Normalize(s) == s <==> (forall i :: 0 <= i < |s| ==> s[i] != CR)
  {
    if s != [] && forall i :: 0 <= i < |s| ==> s[i] != CR {
      assert forall i :: 0 <= i < |s[1..]| ==> s[1..][i] == s[i + 1];
      NormalizeFixedPoint(s[1..]);
    }
  }

  /** Normalizing twice is normalizing once. */
  lemma NormalizeIdempotent(s: Bytes)
    ensures Normalize(Normalize(s)) == Normalize(s)
  {
    NormalizeFixedPoint(Normalize(s));
  }

  /** An input made only of carriage returns normalizes to the empty input. */
  lemma {:induction false} OnlyCarriageReturnsNormalizeToEmpty(s: Bytes)
    requires forall i :: 0 <= i < |s| ==> s[i] == CR
    ensures Normalize(s) == []
  {
    if s != [] {
      assert forall i :: 0 <= i < |s[1..]| ==> s[1..][i] == s[i + 1];
      OnlyCarriageReturnsNormalizeToEmpty(s[1..]);
    }
  }
}
