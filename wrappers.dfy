/** Optional values and error-carrying results, used for Python's None and exceptions. */
module Wrappers {

  /** `None` stands for Python's `None` or for a dictionary key that is absent. */
  datatype Option<+T> = None | Some(value: T)
  {
    function GetOr(default: T): T
    {
      match this
      case Some(v) => v
      case None => default
    }
  }

  /** `Err` stands for an exception that the source lets escape to its caller. */
  datatype Result<+T, +E> = Ok(value: T) | Err(error: E)
}

/** Small facts about sequences shared by the stages. */
module Seqs {

  /** No two positions hold equal elements (Python's `x not in list` dedup). */
  predicate NoDup<T(==)>(s: seq<T>)
  {
    forall i, j :: 0 <= i < j < |s| ==> s[i] != s[j]
  }

  /** `a` is obtained from `b` by deleting elements, keeping order. */
  predicate Subseq<T(==)>(a: seq<T>, b: seq<T>)
    decreases |b|
  {
    if |a| == 0 then true
    else if |b| == 0 then false
    else if a[|a| - 1] == b[|b| - 1] then Subseq(a[..|a| - 1], b[..|b| - 1])
    else Subseq(a, b[..|b| - 1])
  }

  lemma {:induction false} SubseqExtend<T>(a: seq<T>, b: seq<T>, y: T)
    requires Subseq(a, b)
    ensures Subseq(a, b + [y])
    decreases |b|, 1
  {
    if |a| == 0 {
    } else {
      assert (b + [y])[..|b|] == b;
      if a[|a| - 1] == y {
        // a's last element is matched inside b; re-match it at the new end
        SubseqDropLast(a, b);
      }
    }
  }

  /** A subsequence of `b` with its last element removed is still a subsequence of `b`. */
  lemma {:induction false} SubseqDropLast<T>(a: seq<T>, b: seq<T>)
    requires |a| > 0 && Subseq(a, b)
    ensures Subseq(a[..|a| - 1], b)
    decreases |b|, 0
  {
    var a' := a[..|a| - 1];
    var b' := b[..|b| - 1];
    if a[|a| - 1] == b[|b| - 1] {
      assert Subseq(a', b');
      if |a'| > 0 {
        SubseqExtend(a', b', b[|b| - 1]);
        assert b' + [b[|b| - 1]] == b;
      }
    } else {
      SubseqDropLast(a, b');
      if |a'| > 0 {
        SubseqExtend(a', b', b[|b| - 1]);
        assert b' + [b[|b| - 1]] == b;
      }
    }
  }

  lemma {:induction false} SubseqAppendBoth<T>(a: seq<T>, b: seq<T>, x: T)
    requires Subseq(a, b)
    ensures Subseq(a + [x], b + [x])
  {
    assert (a + [x])[..|a|] == a;
    assert (b + [x])[..|b|] == b;
  }

  lemma {:induction false} SubseqMember<T>(a: seq<T>, b: seq<T>, x: T)
    requires Subseq(a, b) && x in a
    ensures x in b
    decreases |b|
  {
    var a' := a[..|a| - 1];
    var b' := b[..|b| - 1];
    if a[|a| - 1] == b[|b| - 1] {
      if x != a[|a| - 1] {
        assert x in a';
        SubseqMember(a', b', x);
      }
    } else {
      SubseqMember(a, b', x);
    }
  }

  /** Appending an element that is not there yet keeps the elements distinct. */
  lemma NoDupAppendFresh<T>(s: seq<T>, x: T)
    requires NoDup(s) && x !in s
    ensures NoDup(s + [x])
  {
  }

  /** A non-empty sequence is its prefix with its last element appended. */
  lemma LastSplit<T>(s: seq<T>)
    requires |s| > 0
    ensures s[..|s| - 1] + [s[|s| - 1]] == s
  {
  }
}
