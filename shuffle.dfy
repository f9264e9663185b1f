// The salt-keyed shuffle every other part of the codec is built on: a
// Fisher-Yates walk from the last index down to 1 whose swap targets come
// from cycling through the salt and a running sum of the salt bytes read.

module Shuffle {
  import opened Bytes

  /**
   * The result of the remaining swaps once `k` have been done. The next swap
   * is at index `i = |s| - 1 - k`; `v` is the salt cursor (reduced modulo the
   * salt length before use) and `p` the sum of the salt bytes read so far.
   */
  function ShuffleFrom(s: seq<byte>, salt: seq<byte>, k: nat, v: nat, p: nat): (r: seq<byte>)
    requires |salt| > 0 && k < |s|
    decreases |s| - k
  {
    if k == |s| - 1 then s
    else
      var i := |s| - 1 - k;
      var v' := v % |salt|;
      var n := salt[v'];
      var p' := p + n;
      var j := (n + v' + p') % i;
      ShuffleFrom(Swap(s, i, j), salt, k + 1, v' + 1, p')
  }

  /**
   * `s` shuffled with `salt`. It is a permutation of `s`, and an empty salt
   * or a sequence of fewer than two bytes leaves `s` as it is.
   */
  function Shuffled(s: seq<byte>, salt: seq<byte>): (r: seq<byte>)
    ensures |r| == |s| && multiset(r) == multiset(s)
    ensures |salt| == 0 || |s| <= 1 ==> r == s
  {
    if |salt| == 0 || |s| == 0 then s
    else
      ShuffleFromPermutes(s, salt, 0, 0, 0);
      ShuffleFrom(s, salt, 0, 0, 0)
  }

  /** The remaining swaps of the walk permute their input. */
  lemma {:induction false} ShuffleFromPermutes(s: seq<byte>, salt: seq<byte>, k: nat, v: nat, p: nat)
    requires |salt| > 0 && k < |s|
    ensures |ShuffleFrom(s, salt, k, v, p)| == |s|
    ensures multiset(ShuffleFrom(s, salt, k, v, p)) == multiset(s)
    decreases |s| - k
  {
    if k < |s| - 1 {
      var i := |s| - 1 - k;
      var v' := v % |salt|;
      var n := salt[v'];
      var j := (n + v' + p + n) % i;
      SwapPermutes(s, i, j);
      ShuffleFromPermutes(Swap(s, i, j), salt, k + 1, v' + 1, p + n);
    }
  }

  /** Shuffles `values` in place with `salt`. */
  method Shuffle(values: array<byte>, salt: seq<byte>)
    modifies values
    ensures values[..] == Shuffled(old(values[..]), salt)
  {
    var len := values.Length;
    if |salt| == 0 || len == 0 {
      return;
    }
    ghost var target := Shuffled(values[..], salt);
    var v: nat := 0;
    var p: nat := 0;
    var i: nat := len - 1;
    while i >= 1
      invariant i < len
      invariant ShuffleFrom(values[..], salt, len - 1 - i, v, p) == target
    {
      ghost var v0, p0, cur := v, p, values[..];
      v := v % |salt|;
      var n := salt[v];
      p := p + n;
      var j := (n + v + p) % i;
      ShuffleStep(cur, salt, len - 1 - i, v0, p0, i, j, v + 1, p);
      values[i], values[j] := values[j], values[i];
      assert values[..] == Swap(cur, i, j);
      v := v + 1;
      i := i - 1;
    }
  }

  /** Shuffling keeps a duplicate-free sequence duplicate-free. */
  lemma ShuffledNoDup(s: seq<byte>, salt: seq<byte>)
    requires NoDup(s)
    ensures NoDup(Shuffled(s, salt))
  {
    NoDupPermutation(s, Shuffled(s, salt));
  }

  /** Shuffling neither adds nor drops a byte value. */
  lemma ShuffledMembers(s: seq<byte>, salt: seq<byte>, x: byte)
    ensures x in Shuffled(s, salt) <==> x in s
  {
    var r := Shuffled(s, salt);
    assert x in r <==> x in multiset(r);
    assert x in s <==> x in multiset(s);
  }

  /**
   * One swap of the walk, with the next cursor, sum and swap target given
   * explicitly so that a chain of these evaluates a shuffle on known bytes.
   */
  lemma ShuffleStep(s: seq<byte>, salt: seq<byte>, k: nat, v: nat, p: nat, i: nat, j: nat, v': nat, p': nat)
    requires |salt| > 0 && k < |s| - 1 && i == |s| - 1 - k
    requires v' == v % |salt| + 1 && p' == p + salt[v % |salt|]
    requires j == (salt[v % |salt|] + v % |salt| + p') % i
    ensures j < i
    ensures ShuffleFrom(s, salt, k, v, p) == ShuffleFrom(Swap(s, i, j), salt, k + 1, v', p')
  {
  }
}
