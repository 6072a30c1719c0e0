/**
  The rotation step `colors.unshift(colors.pop())`: the last entry moves to
  the front and every other entry moves up one index.
*/
module Rotation {

  import opened Arith

  /** One rotation step on a sequence: the last entry moves to the front. */
  function RotR<T>(s: seq<T>): (r: seq<T>)
    ensures |r| == |s|
  {
    if |s| == 0 then [] else [s[|s| - 1]] + s[..|s| - 1]
  }

  /** The opposite step, front to back. */
  function RotL<T>(s: seq<T>): (r: seq<T>)
    ensures |r| == |s|
  {
    if |s| == 0 then [] else s[1..] + [s[0]]
  }

  /**
    After one step slot 0 holds the old last entry and every other slot `k`
    holds what slot `k - 1` held.
  */
  lemma RotRAt<T>(s: seq<T>, k: nat)
    requires k < |s|
    ensures RotR(s)[k] == if k == 0 then s[|s| - 1] else s[k - 1]
  {
  }

  /** After the opposite step the last slot holds the old first entry and slot `k` what slot `k + 1` held. */
  lemma RotLAt<T>(s: seq<T>, k: nat)
    requires k < |s|
    ensures RotL(s)[k] == if k == |s| - 1 then s[0] else s[k + 1]
  {
  }

  /** A rotation step loses no colour and adds none. */
  lemma RotRPermutes<T>(s: seq<T>)
    ensures multiset(RotR(s)) == multiset(s)
  {
    if |s| > 0 {
      var n := |s|;
      assert s == s[..n - 1] + [s[n - 1]];
      calc {
        multiset(RotR(s));
        multiset([s[n - 1]]) + multiset(s[..n - 1]);
        multiset(s[..n - 1] + [s[n - 1]]);
      }
    }
  }

  /** `RotL` and `RotR` are inverse to each other. */
  lemma RotInverse<T>(s: seq<T>)
    ensures RotL(RotR(s)) == s
    ensures RotR(RotL(s)) == s
  {
    forall k | 0 <= k < |s| ensures RotL(RotR(s))[k] == s[k] && RotR(RotL(s))[k] == s[k] {
      RotLAt(RotR(s), k);
      RotRAt(s, if k == |s| - 1 then 0 else k + 1);
      RotRAt(RotL(s), k);
      RotLAt(s, if k == 0 then |s| - 1 else k - 1);
    }
  }

  /** `k` rotation steps in a row. */
  function RotRN<T>(s: seq<T>, k: nat): (r: seq<T>)
    ensures |r| == |s|
  {
    if k == 0 then s else RotR(RotRN(s, k - 1))
  }

  /** Any number of steps keeps the multiset of colours. */
  lemma {:induction false} RotRNPermutes<T>(s: seq<T>, k: nat)
    ensures multiset(RotRN(s, k)) == multiset(s)
  {
    if k > 0 {
      var t := RotRN(s, k - 1);
      assert RotRN(s, k) == RotR(t);
      RotRNPermutes(s, k - 1);
      RotRPermutes(t);
    }
  }

  /** Stepping one slot back before or after reducing modulo `n` lands on the same slot. */
  lemma ModStepBack(j: int, k: int, n: int)
    requires n > 0
    ensures ((j - 1) % n - (k - 1)) % n == (j - k) % n
  {
    var q := (j - 1) / n;
    assert j - 1 == q * n + (j - 1) % n;
    ModMultiple(j - k, q, n);
  }

  /** After `k` steps, slot `j` holds what slot `(j - k) mod n` held at the start. */
  lemma {:induction false} RotRNAt<T>(s: seq<T>, k: nat, j: nat)
    requires j < |s|
    ensures RotRN(s, k)[j] == s[(j - k) % |s|]
  {
    var n := |s|;
    if k > 0 {
      var i := (j - 1) % n;
      if j == 0 {
        ModUnique(j - 1, n, -1, n - 1);
      } else {
        ModUnique(j - 1, n, 0, j - 1);
      }
      RotRAt(RotRN(s, k - 1), j);
      RotRNAt(s, k - 1, i);
      ModStepBack(j, k, n);
    }
  }

  /** `a` steps followed by `b` steps are `a + b` steps. */
  lemma {:induction false} RotRNAdd<T>(s: seq<T>, a: nat, b: nat)
    ensures RotRN(RotRN(s, a), b) == RotRN(s, a + b)
  {
    if b > 0 {
      RotRNAdd(s, a, b - 1);
    }
  }

  /** After `|s|` steps slot `j` holds its starting entry again. */
  lemma RotRNFullAt<T>(s: seq<T>, j: nat)
    requires j < |s|
    ensures RotRN(s, |s|)[j] == s[j]
  {
    RotRNAt(s, |s|, j);
    ModUnique(j - |s|, |s|, -1, j);
  }

  /** `|s|` steps bring every entry back where it started. */
  lemma RotRNFull<T>(s: seq<T>)
    ensures RotRN(s, |s|) == s
  {
    forall j | 0 <= j < |s| ensures RotRN(s, |s|)[j] == s[j] {
      RotRNFullAt(s, j);
    }
  }

  /** The rotation repeats with period `|s|`: `k` steps equal `k mod |s|` steps. */
  lemma {:induction false} RotRNPeriodic<T>(s: seq<T>, k: nat)
    requires |s| > 0
    ensures RotRN(s, k) == RotRN(s, k % |s|)
    decreases k
  {
    var n := |s|;
    if k >= n {
      RotRNAdd(s, n, k - n);
      RotRNFull(s);
      RotRNPeriodic(s, k - n);
      ModMultiple(k, 1, n);
    } else {
      ModUnique(k, n, 0, k);
    }
  }

  /**
    `a.unshift(a.pop())` on an array: remember the last entry, shift every
    other entry up by one, and put the remembered entry in slot 0.
  */
  method RotateInPlace<T>(a: array<T>)
    modifies a
    ensures a[..] == RotR(old(a[..]))
  {
    var n := a.Length;
    if n == 0 {
      return;
    }
    var last := a[n - 1];
    var i := n - 1;
    while i > 0
      invariant 0 <= i <= n - 1
      invariant forall k :: 0 <= k <= i ==> a[k] == old(a[k])
      invariant forall k :: i < k < n ==> a[k] == old(a[k - 1])
    {
      a[i] := a[i - 1];
      i := i - 1;
    }
    a[0] := last;
    ghost var before := old(a[..]);
    forall k | 0 <= k < n ensures a[k] == RotR(before)[k] {
      RotRAt(before, k);
    }
  }
}
