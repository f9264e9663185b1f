// Byte-level vocabulary shared by the shuffle, the builder and the codec:
// the source's `u8` and `u64`, `Option`, and the slice operations of Rust's
// standard library that the codec relies on (`position`, `rposition`,
// `split` on a predicate, `filter`, `reverse`, `swap`).

module Bytes {

  /** The source's `u8`. Every alphabet, salt and hashid is a sequence of these. */
  type byte = b: int | 0 <= b < 256

  /** 2^64, one more than the largest `u64`. */
  const U64_MODULUS: int := 0x1_0000_0000_0000_0000

  /** The source's `u64`. */
  type u64 = n: int | 0 <= n < 0x1_0000_0000_0000_0000

  datatype Option<T> = None | Some(value: T)

  datatype Result<T, E> = Ok(value: T) | Err(error: E)

  /** No byte occurs twice. */
  predicate NoDup(s: seq<byte>)
  {
    forall i, j :: 0 <= i < j < |s| ==> s[i] != s[j]
  }

  /** No byte of `a` occurs in `b`. */
  predicate Disjoint(a: seq<byte>, b: seq<byte>)
  {
    forall x :: x in a ==> x !in b
  }

  /** Every byte of `a` occurs in `b`. */
  predicate Within(a: seq<byte>, b: seq<byte>)
  {
    forall x :: x in a ==> x in b
  }

  /** Swaps `s[i]` and `s[j]`, as `<[T]>::swap`. */
  function Swap(s: seq<byte>, i: nat, j: nat): (r: seq<byte>)
    requires i < |s| && j < |s|
    ensures |r| == |s|
  {
    s[i := s[j]][j := s[i]]
  }

  /** A swap permutes. */
  lemma SwapPermutes(s: seq<byte>, i: nat, j: nat)
    requires i < |s| && j < |s|
    ensures multiset(Swap(s, i, j)) == multiset(s)
  {
  }

  /** `s` read backwards, as `<[T]>::reverse`. */
  function Reverse(s: seq<byte>): (r: seq<byte>)
    ensures |r| == |s|
    ensures forall k :: 0 <= k < |s| ==> r[k] == s[|s| - 1 - k]
  {
    seq(|s|, k requires 0 <= k < |s| => s[|s| - 1 - k])
  }

  /** Reversing after appending puts the new byte first. */
  lemma ReverseSnoc(s: seq<byte>, x: byte)
    ensures Reverse(s + [x]) == [x] + Reverse(s)
  {
  }

  /** Index of the first occurrence of `x` in `s`, as `Iterator::position`. */
  function IndexOf(s: seq<byte>, x: byte): (r: Option<nat>)
    ensures r.None? <==> x !in s
    ensures r.Some? ==> r.value < |s| && s[r.value] == x && x !in s[..r.value]
  {
    if |s| == 0 then None
    else if s[0] == x then Some(0)
    else match IndexOf(s[1..], x)
      case None => None
      case Some(k) =>
        assert s[..k + 1] == [s[0]] + s[1..][..k];
        Some(k + 1)
  }

  /** Index of the first byte of `s` that belongs to `set_`, as `position(|u| set_.contains(u))`. */
  function FirstIn(s: seq<byte>, set_: seq<byte>): (r: Option<nat>)
    ensures r.None? <==> Disjoint(s, set_)
    ensures r.Some? ==> r.value < |s| && s[r.value] in set_ && Disjoint(s[..r.value], set_)
  {
    if |s| == 0 then None
    else if s[0] in set_ then Some(0)
    else match FirstIn(s[1..], set_)
      case None => None
      case Some(k) =>
        assert s[..k + 1] == [s[0]] + s[1..][..k];
        Some(k + 1)
  }

  /** Index of the last byte of `s` that belongs to `set_`, as `rposition(|u| set_.contains(u))`. */
  function LastIn(s: seq<byte>, set_: seq<byte>): (r: Option<nat>)
    ensures r.None? <==> Disjoint(s, set_)
    ensures r.Some? ==> r.value < |s| && s[r.value] in set_ && Disjoint(s[r.value + 1..], set_)
  {
    if |s| == 0 then None
    else if s[|s| - 1] in set_ then Some(|s| - 1)
    else
      assert s == s[..|s| - 1] + [s[|s| - 1]];
      match LastIn(s[..|s| - 1], set_)
      case None => None
      case Some(k) =>
        assert s[k + 1..] == s[..|s| - 1][k + 1..] + [s[|s| - 1]];
        Some(k)
  }

  /**
   * The pieces of `s` between bytes of `seps`, as `<[T]>::split`: an empty
   * input gives one empty piece, and adjacent or trailing separators give
   * empty pieces.
   */
  function Split(s: seq<byte>, seps: seq<byte>): (r: seq<seq<byte>>)
    ensures |r| >= 1
    ensures forall k :: 0 <= k < |r| ==> Disjoint(r[k], seps)
    decreases |s|
  {
    match FirstIn(s, seps)
    case None => [s]
    case Some(i) => [s[..i]] + Split(s[i + 1..], seps)
  }

  /** The bytes of `s` that occur in `allowed`, in order, as `filter(|x| allowed.contains(x))`. */
  function Only(s: seq<byte>, allowed: seq<byte>): (r: seq<byte>)
    ensures |r| <= |s|
    ensures forall x :: x in r <==> x in s && x in allowed
    ensures multiset(r) <= multiset(s)
  {
    if |s| == 0 then []
    else
      var rest := Only(s[1..], allowed);
      assert s == [s[0]] + s[1..];
      if s[0] in allowed then [s[0]] + rest else rest
  }

  /** The bytes of `s` that do not occur in `removed`, in order, as `filter(|x| !removed.contains(x))`. */
  function Except(s: seq<byte>, removed: seq<byte>): (r: seq<byte>)
    ensures |r| <= |s|
    ensures forall x :: x in r <==> x in s && x !in removed
    ensures multiset(r) <= multiset(s)
  {
    if |s| == 0 then []
    else
      var rest := Except(s[1..], removed);
      assert s == [s[0]] + s[1..];
      if s[0] in removed then rest else [s[0]] + rest
  }

  /** The first byte of `s` in `set_` is at `i` when `s[i]` is one and none before it is. */
  lemma FirstInAt(s: seq<byte>, set_: seq<byte>, i: nat)
    requires i < |s| && s[i] in set_ && Disjoint(s[..i], set_)
    ensures FirstIn(s, set_) == Some(i)
  {
    assert s[i] in s;
  }

  /** The last byte of `s` in `set_` is at `i` when `s[i]` is one and none after it is. */
  lemma LastInAt(s: seq<byte>, set_: seq<byte>, i: nat)
    requires i < |s| && s[i] in set_ && Disjoint(s[i + 1..], set_)
    ensures LastIn(s, set_) == Some(i)
  {
    assert s[i] in s;
  }

  /** Splitting a piece free of separators, a separator and the rest. */
  lemma SplitAt(x: seq<byte>, sep: byte, rest: seq<byte>, seps: seq<byte>)
    requires Disjoint(x, seps) && sep in seps
    ensures Split(x + [sep] + rest, seps) == [x] + Split(rest, seps)
  {
    var s := x + [sep] + rest;
    assert s[..|x|] == x;
    FirstInAt(s, seps, |x|);
    assert s[|x| + 1..] == rest;
  }

  /** A sequence free of separators splits into itself. */
  lemma SplitNone(x: seq<byte>, seps: seq<byte>)
    requires Disjoint(x, seps)
    ensures Split(x, seps) == [x]
  {
  }

  /** Two sequences free of `c` make a concatenation free of `c`. */
  lemma DisjointConcat(a: seq<byte>, b: seq<byte>, c: seq<byte>)
    requires Disjoint(a, c) && Disjoint(b, c)
    ensures Disjoint(a + b, c)
  {
    forall x | x in a + b ensures x !in c {
      assert x in a || x in b;
    }
  }

  /** Bytes drawn from `b` avoid whatever `b` avoids. */
  lemma WithinDisjoint(a: seq<byte>, b: seq<byte>, c: seq<byte>)
    requires Within(a, b) && Disjoint(b, c)
    ensures Disjoint(a, c)
  {
  }

  /** Whatever avoids `b` avoids every sequence drawn from `b`. */
  lemma DisjointWithin(a: seq<byte>, b: seq<byte>, c: seq<byte>)
    requires Disjoint(a, b) && Within(c, b)
    ensures Disjoint(a, c)
  {
  }

  /** Being drawn from `c` carries over along `Within`. */
  lemma WithinTrans(a: seq<byte>, b: seq<byte>, c: seq<byte>)
    requires Within(a, b) && Within(b, c)
    ensures Within(a, c)
  {
  }

  /** Every byte of a slice is a byte of the sequence. */
  lemma SliceWithin(s: seq<byte>, i: nat, j: nat)
    requires i <= j <= |s|
    ensures Within(s[i..j], s)
  {
    forall x | x in s[i..j] ensures x in s {
      var k :| 0 <= k < j - i && s[i..j][k] == x;
      assert s[i + k] == x;
    }
  }

  /** Drawn from `c` piece by piece, drawn from `c` as a whole. */
  lemma WithinConcat(a: seq<byte>, b: seq<byte>, c: seq<byte>)
    requires Within(a, c) && Within(b, c)
    ensures Within(a + b, c)
  {
    forall x | x in a + b ensures x in c {
      assert x in a || x in b;
    }
  }

  /** Both halves of a concatenation are drawn from it. */
  lemma WithinLeft(a: seq<byte>, b: seq<byte>)
    ensures Within(a, a + b)
  {
  }

  /** Both halves of a concatenation are drawn from it. */
  lemma WithinRight(a: seq<byte>, b: seq<byte>)
    ensures Within(b, a + b)
  {
  }

  /** A window of `x + mid + y` that covers `mid` is a suffix of `x`, `mid` and a prefix of `y`. */
  lemma SliceAround(x: seq<byte>, mid: seq<byte>, y: seq<byte>, m: nat, e: nat)
    requires m <= |x| && |x| + |mid| <= e <= |x| + |mid| + |y|
    ensures (x + mid + y)[m..e] == x[m..] + mid + y[..e - |x| - |mid|]
  {
  }

  /** Every byte of `s` is kept by exactly one of the two filters. */
  lemma {:induction false} FilterCount(s: seq<byte>, r: seq<byte>)
    ensures |Except(s, r)| + |Only(s, r)| == |s|
  {
    if |s| > 0 {
      FilterCount(s[1..], r);
    }
  }

  /** A duplicate-free sequence drawn from `y` is no longer than `y`. */
  lemma {:induction false} NoDupWithinLength(x: seq<byte>, y: seq<byte>)
    requires NoDup(x) && Within(x, y)
    ensures |x| <= |y|
    decreases |x|
  {
    if |x| > 0 {
      assert x[0] in x;
      var i :| 0 <= i < |y| && y[i] == x[0];
      var rest := y[..i] + y[i + 1..];
      forall z | z in x[1..] ensures z in rest {
        var k :| 0 <= k < |x| - 1 && x[1..][k] == z;
        assert x[k + 1] == z && z != x[0];
        assert z in y;
        var m :| 0 <= m < |y| && y[m] == z;
        if m < i {
          assert rest[m] == z;
        } else {
          assert rest[m - 1] == z;
        }
      }
      NoDupWithinLength(x[1..], rest);
    }
  }

  /** A sequence without duplicates stays so under any permutation. */
  lemma NoDupPermutation(s: seq<byte>, t: seq<byte>)
    requires multiset(s) == multiset(t)
    requires NoDup(s)
    ensures NoDup(t)
  {
    forall i, j | 0 <= i < j < |t|
      ensures t[i] != t[j]
    {
      if t[i] == t[j] {
        var x := t[i];
        assert multiset(t[..i + 1])[x] >= 1 by {
          assert t[..i + 1][i] == x;
        }
        assert t == t[..i + 1] + t[i + 1..];
        assert t[j] in t[i + 1..];
        assert multiset(t)[x] >= 2 by {
          assert multiset(t) == multiset(t[..i + 1]) + multiset(t[i + 1..]);
        }
        NoDupCount(s, x);
      }
    }
  }

  /** In a sequence without duplicates, each byte occurs at most once. */
  lemma NoDupCount(s: seq<byte>, x: byte)
    requires NoDup(s)
    ensures multiset(s)[x] <= 1
  {
    if |s| > 0 {
      assert s == [s[0]] + s[1..];
      NoDupCount(s[1..], x);
      if s[0] == x {
        assert x !in s[1..];
      }
    }
  }
}
