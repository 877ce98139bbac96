/** Finding a pattern in a stretch of bytes. */
module ByteSearch {

  predicate StartsAt(w: string, p: string, i: nat) {
    i + |p| <= |w| && w[i..i + |p|] == p
  }

  /** The first occurrence of `p` at or after `from`, or the end. */
  function FindFrom(w: string, p: string, from: nat): (i: nat)
    requires from <= |w| && p != []
    ensures from <= i <= |w|
    ensures i < |w| ==> StartsAt(w, p, i)
    ensures forall k :: from <= k < i ==> !StartsAt(w, p, k)
    decreases |w| - from
  {
    if from == |w| || StartsAt(w, p, from) then from else FindFrom(w, p, from + 1)
  }

  function Find(w: string, p: string): (i: nat)
    requires p != []
    ensures i <= |w|
    ensures i < |w| ==> i + |p| <= |w| && StartsAt(w, p, i)
    ensures forall k :: 0 <= k < i ==> !StartsAt(w, p, k)
  {
    FindFrom(w, p, 0)
  }

  lemma FindIs(w: string, p: string, i: nat)
    requires p != [] && StartsAt(w, p, i) && forall k :: 0 <= k < i ==> !StartsAt(w, p, k)
    ensures Find(w, p) == i
  {
  }

  lemma NotFound(w: string, p: string)
    requires p != [] && forall k :: 0 <= k < |w| ==> !StartsAt(w, p, k)
    ensures Find(w, p) == |w|
  {
  }

  /** An occurrence that fits in the first part is an occurrence in the whole. */
  lemma StartsAtAppend(w: string, b: string, p: string, k: nat)
    requires k + |p| <= |w|
    ensures StartsAt(w + b, p, k) <==> StartsAt(w, p, k)
  {
    assert (w + b)[k..k + |p|] == w[k..k + |p|];
  }

  /** More bytes do not move an occurrence already found. */
  lemma FindAppend(w: string, b: string, p: string)
    requires p != [] && Find(w, p) < |w|
    ensures Find(w + b, p) == Find(w, p)
  {
    var i := Find(w, p);
    StartsAtAppend(w, b, p, i);
    forall k | 0 <= k < i
      ensures !StartsAt(w + b, p, k)
    {
      StartsAtAppend(w, b, p, k);
    }
    FindIs(w + b, p, i);
  }

  lemma StartsAtShift(w: string, n: nat, p: string, k: nat)
    requires n <= |w|
    ensures StartsAt(w[n..], p, k) <==> StartsAt(w, p, n + k)
  {
    if k + |p| <= |w[n..]| {
      assert w[n..][k..k + |p|] == w[n + k..n + k + |p|];
    }
  }

  /** Dropping a prefix in which no occurrence begins only shifts the search. */
  lemma FindShift(w: string, n: nat, p: string)
    requires p != [] && n <= |w| && forall k :: 0 <= k < n ==> !StartsAt(w, p, k)
    ensures Find(w, p) == n + Find(w[n..], p)
  {
    var i := Find(w[n..], p);
    forall k | 0 <= k < n + i
      ensures !StartsAt(w, p, k)
    {
      if n <= k {
        StartsAtShift(w, n, p, k - n);
      }
    }
    if i < |w[n..]| {
      StartsAtShift(w, n, p, i);
      FindIs(w, p, n + i);
    } else {
      NotFound(w, p);
    }
  }

  /** Without an occurrence so far, the last |p| bytes are all a search needs to keep. */
  lemma FindKeepsTail(w: string, b: string, p: string)
    requires p != [] && |p| <= |w| && Find(w, p) == |w|
    ensures Find(w + b, p) == |w| - |p| + Find(w[|w| - |p|..] + b, p)
  {
    var n := |w| - |p|;
    forall k | 0 <= k < n
      ensures !StartsAt(w + b, p, k)
    {
      StartsAtAppend(w, b, p, k);
    }
    FindShift(w + b, n, p);
    assert (w + b)[n..] == w[n..] + b;
  }

  lemma ByteOfOccurrence(w: string, p: string, k: nat, i: nat)
    requires StartsAt(w, p, k) && k <= i < k + |p|
    ensures w[i] == p[i - k]
  {
    assert w[k..k + |p|][i - k] == w[i];
  }

  /** A pattern whose first byte occurs nowhere else in it cannot overlap itself: the first
      occurrence after a text free of it is right after the text, and only then. */
  lemma FindAfterText(text: string, p: string, rest: string)
    requires p != [] && forall k :: 1 <= k < |p| ==> p[k] != p[0]
    ensures Find(text + p + rest, p) == |text| <==> Find(text, p) == |text|
  {
    var w := text + p + rest;
    assert w[|text|..|text| + |p|] == p;
    if Find(text, p) == |text| {
      forall k | 0 <= k < |text|
        ensures !StartsAt(w, p, k)
      {
        if k + |p| <= |text| {
          assert w == text + (p + rest);
          StartsAtAppend(text, p + rest, p, k);
        } else if StartsAt(w, p, k) {
          ByteOfOccurrence(w, p, k, |text|);
        }
      }
      FindIs(w, p, |text|);
    } else {
      assert w == text + (p + rest);
      FindAppend(text, p + rest, p);
    }
  }
}
