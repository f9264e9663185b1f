// The builder that checks an alphabet and derives a codec configuration
// from it: the distinct alphabet bytes are split into separators and
// digits, the two sets are rebalanced so that there is about one separator
// per three and a half digits, and a twelfth of the digits become guards.

module Builder {
  import opened Bytes
  import opened Shuffle
  import opened Codec

  /** `n` consecutive byte values from `first` on. */
  function Run(first: byte, n: nat): (r: seq<byte>)
    requires first + n <= 256
    ensures |r| == n && forall i :: 0 <= i < n ==> r[i] == first + i
  {
    seq(n, i requires 0 <= i < n => first + i)
  }

  /** The alphabet used when the builder is given none: `a`-`z`, `A`-`Z`, `1`-`9`, `0`. */
  const DEFAULT_ALPHABET: seq<byte> := Run(97, 26) + Run(65, 26) + Run(49, 9) + [48]

  /** The separator candidates used when the builder is given none: `cfhistuCFHISTU`. */
  const DEFAULT_SEPARATORS: seq<byte> := [99, 102, 104, 105, 115, 116, 117, 67, 70, 72, 73, 83, 84, 85]

  /** The fewest distinct bytes an alphabet may have. */
  const MINIMUM_ALPHABET_LENGTH: nat := 16

  /** The one byte an alphabet may not contain. */
  const SPACE: byte := 32

  datatype BuildError = AlphabetLength | IllegalCharacter(c: byte) | Separator

  /** The builder's settings; `None` stands for "use the default". */
  datatype HarshBuilder = HarshBuilder(salt: Option<seq<byte>>, alphabet: Option<seq<byte>>,
                                       separators: Option<seq<byte>>, hashLength: nat)

  /** `HarshBuilder::new`: every setting at its default. */
  function New(): (r: HarshBuilder)
    ensures r.salt.None? && r.alphabet.None? && r.separators.None? && r.hashLength == 0
  {
    HarshBuilder(None, None, None, 0)
  }

  /** `salt`: sets the salt and nothing else. */
  function WithSalt(b: HarshBuilder, salt: seq<byte>): (r: HarshBuilder)
    ensures r.salt == Some(salt)
    ensures r.alphabet == b.alphabet && r.separators == b.separators && r.hashLength == b.hashLength
  {
    b.(salt := Some(salt))
  }

  /** `alphabet`: sets the alphabet and nothing else. */
  function WithAlphabet(b: HarshBuilder, alphabet: seq<byte>): (r: HarshBuilder)
    ensures r.alphabet == Some(alphabet)
    ensures r.salt == b.salt && r.separators == b.separators && r.hashLength == b.hashLength
  {
    b.(alphabet := Some(alphabet))
  }

  /** `separators`: sets the separator candidates and nothing else. */
  function WithSeparators(b: HarshBuilder, separators: seq<byte>): (r: HarshBuilder)
    ensures r.separators == Some(separators)
    ensures r.salt == b.salt && r.alphabet == b.alphabet && r.hashLength == b.hashLength
  {
    b.(separators := Some(separators))
  }

  /** `length`: sets the minimum hashid length and nothing else. */
  function WithLength(b: HarshBuilder, hashLength: nat): (r: HarshBuilder)
    ensures r.hashLength == hashLength
    ensures r.salt == b.salt && r.alphabet == b.alphabet && r.separators == b.separators
  {
    b.(hashLength := hashLength)
  }

  // ---------------------------------------------------------------------
  // unique_alphabet

  /** The distinct bytes of `s`, each where it first occurs. */
  function Dedup(s: seq<byte>): (r: seq<byte>)
    ensures NoDup(r) && |r| <= |s|
    ensures forall x :: x in r <==> x in s
  {
    if |s| == 0 then []
    else
      var d := Dedup(s[..|s| - 1]);
      var x := s[|s| - 1];
      assert s == s[..|s| - 1] + [x];
      if x in d then d else d + [x]
  }

  /**
   * What `unique_alphabet` returns: the default alphabet when none is
   * given; otherwise an illegal-character error for a space, a length error
   * for fewer than sixteen distinct bytes, or the distinct bytes.
   */
  function DistinctAlphabet(alphabet: Option<seq<byte>>): (r: Result<seq<byte>, BuildError>)
    ensures r.Ok? ==> NoDup(r.value) && |r.value| >= MINIMUM_ALPHABET_LENGTH
  {
    match alphabet
    case None => DefaultAlphabetNoDup(); Ok(DEFAULT_ALPHABET)
    case Some(a) =>
      if SPACE in a then Err(IllegalCharacter(SPACE))
      else if |Dedup(a)| < MINIMUM_ALPHABET_LENGTH then Err(AlphabetLength)
      else Ok(Dedup(a))
  }

  /** `unique_alphabet`: one pass that stops at a space and keeps each byte the first time it is seen. */
  method UniqueAlphabet(alphabet: Option<seq<byte>>) returns (r: Result<seq<byte>, BuildError>)
    ensures r == DistinctAlphabet(alphabet)
  {
    if alphabet.None? {
      return Ok(DEFAULT_ALPHABET);
    }
    var a := alphabet.value;
    var ret: seq<byte> := [];
    var i := 0;
    while i < |a|
      invariant 0 <= i <= |a|
      invariant ret == Dedup(a[..i]) && SPACE !in a[..i]
    {
      var item := a[i];
      if item == SPACE {
        assert a[i] in a;
        return Err(IllegalCharacter(item));
      }
      assert a[..i + 1][..i] == a[..i];
      if item !in ret {
        ret := ret + [item];
      }
      i := i + 1;
    }
    assert a[..i] == a;
    if |ret| < 16 {
      return Err(AlphabetLength);
    }
    return Ok(ret);
  }

  /** A run of byte values holds exactly the values in its range. */
  lemma RunMembers(first: byte, n: nat, x: byte)
    requires first + n <= 256
    ensures x in Run(first, n) <==> first <= x < first + n
  {
    if first <= x < first + n {
      assert Run(first, n)[x - first] == x;
    }
  }

  /** The default alphabet has sixty-two distinct bytes. */
  lemma DefaultAlphabetNoDup()
    ensures |DEFAULT_ALPHABET| == 62 && NoDup(DEFAULT_ALPHABET)
  {
    var lower, upper, digits := Run(97, 26), Run(65, 26), Run(49, 9);
    forall x ensures x in lower ==> x !in upper && x !in digits + [48] {
      RunMembers(97, 26, x);
      RunMembers(65, 26, x);
      RunMembers(49, 9, x);
    }
    forall x ensures x in upper ==> x !in digits + [48] {
      RunMembers(65, 26, x);
      RunMembers(49, 9, x);
    }
    forall x ensures x in digits ==> x != 48 {
      RunMembers(49, 9, x);
    }
    NoDupJoin(digits, [48]);
    NoDupJoin(upper, digits + [48]);
    NoDupJoin(lower, upper + (digits + [48]));
    assert DEFAULT_ALPHABET == lower + (upper + (digits + [48]));
  }

  /** The distinct bytes come in the order of their first occurrence. */
  lemma {:induction false} DedupOrder(s: seq<byte>)
    ensures forall i, j :: 0 <= i < j < |Dedup(s)| ==>
              IndexOf(s, Dedup(s)[i]).value < IndexOf(s, Dedup(s)[j]).value
  {
    if |s| > 0 {
      var t, x := s[..|s| - 1], s[|s| - 1];
      var d, r := Dedup(t), Dedup(s);
      DedupOrder(t);
      assert s == t + [x];
      forall y | y in t ensures IndexOf(s, y) == IndexOf(t, y) {
        IndexOfPrefix(t, x, y);
      }
      if x !in d {
        assert r == d + [x];
        IndexOfLast(t, x);
        forall i | 0 <= i < |d| ensures IndexOf(s, r[i]).value < |t| {
          assert r[i] == d[i] && d[i] in t;
        }
      }
    }
  }

  /** Where a byte of `t` first occurs does not change when a byte is appended. */
  lemma IndexOfPrefix(t: seq<byte>, x: byte, y: byte)
    requires y in t
    ensures IndexOf(t + [x], y) == IndexOf(t, y)
  {
    var k := IndexOf(t, y).value;
    assert (t + [x])[..k] == t[..k];
    IndexOfAt(t + [x], y, k);
  }

  /** A byte new to `t` first occurs in `t + [x]` at the end. */
  lemma IndexOfLast(t: seq<byte>, x: byte)
    requires x !in t
    ensures IndexOf(t + [x], x) == Some(|t|)
  {
    assert (t + [x])[..|t|] == t;
    IndexOfAt(t + [x], x, |t|);
  }

  /** `x` first occurs at `k` when it is there and not before. */
  lemma IndexOfAt(s: seq<byte>, x: byte, k: nat)
    requires k < |s| && s[k] == x && x !in s[..k]
    ensures IndexOf(s, x) == Some(k)
  {
    assert x in s;
  }

  /** `unique_alphabet` rejects a space wherever it is, and short alphabets; it never reports a separator error. */
  lemma DistinctAlphabetErrors(alphabet: seq<byte>)
    ensures DistinctAlphabet(Some(alphabet)) == Err(IllegalCharacter(SPACE)) <==> SPACE in alphabet
    ensures DistinctAlphabet(Some(alphabet)) == Err(AlphabetLength) <==>
              SPACE !in alphabet && |Dedup(alphabet)| < MINIMUM_ALPHABET_LENGTH
    ensures DistinctAlphabet(Some(alphabet)).Ok? ==>
              var r := DistinctAlphabet(Some(alphabet)).value;
              NoDup(r) && |r| >= MINIMUM_ALPHABET_LENGTH && (forall x :: x in r <==> x in alphabet)
  {
  }

  // ---------------------------------------------------------------------
  // alphabet_and_separators

  /** The separator candidates: the given ones or the default ones. */
  function Candidates(separators: Option<seq<byte>>): seq<byte>
  {
    if separators.Some? then separators.value else DEFAULT_SEPARATORS
  }

  /**
   * The rebalance test: no separators, or more than three and a half
   * digits per separator (`a / s > 3.5` in floating point, `2a > 7s` here).
   */
  predicate NeedsRebalance(a: nat, s: nat)
  {
    s == 0 || 2 * a > 7 * s
  }

  /** The number of separators a rebalance aims at: `ceil(a / 3.5)`, with 1 raised to 2. */
  function SeparatorTarget(a: nat): (r: nat)
    ensures r == 0 <==> a == 0
    ensures a > 0 ==> r >= 2 && 7 * (r - 1) < 2 * a + 7 && (r > 2 ==> 2 * a <= 7 * r)
  {
    var n := (2 * a + 6) / 7;
    if n == 1 then 2 else n
  }

  /**
   * A rebalance: too few separators are topped up from the front of the
   * digits, too many are cut down to the target.
   */
  function Rebalance(alphabet: seq<byte>, separators: seq<byte>): (r: (seq<byte>, seq<byte>))
    requires SeparatorTarget(|alphabet|) <= |alphabet| + |separators|
    ensures |r.1| == SeparatorTarget(|alphabet|)
  {
    var length := SeparatorTarget(|alphabet|);
    if length > |separators| then
      var diff := length - |separators|;
      (alphabet[diff..], separators + alphabet[..diff])
    else (alphabet, separators[..length])
  }

  /**
   * When `alphabet_and_separators` does not panic: a rebalance of a single
   * digit and no separator would take two digits from one.
   */
  predicate CanPartition(separators: Option<seq<byte>>, alphabet: seq<byte>)
  {
    |alphabet| == 1 ==> alphabet[0] in Candidates(separators)
  }

  /** When a rebalance, if one is due, has enough bytes to reach its target. */
  predicate CanRebalance(alphabet: seq<byte>, separators: seq<byte>)
  {
    NeedsRebalance(|alphabet|, |separators|) ==> SeparatorTarget(|alphabet|) <= |alphabet| + |separators|
  }

  /**
   * The digits and separators after the rebalance step: rebalanced when
   * the test says so, untouched otherwise.
   */
  function Rebalanced(alphabet: seq<byte>, separators: seq<byte>): (r: (seq<byte>, seq<byte>))
    requires CanRebalance(alphabet, separators)
    ensures NeedsRebalance(|alphabet|, |separators|) ==>
              |r.1| == SeparatorTarget(|alphabet|) && |r.0| + |r.1| >= |alphabet|
    ensures !NeedsRebalance(|alphabet|, |separators|) ==> r == (alphabet, separators)
  {
    if NeedsRebalance(|alphabet|, |separators|) then Rebalance(alphabet, separators) else (alphabet, separators)
  }

  /**
   * What `alphabet_and_separators` returns: the candidates found in the
   * alphabet, shuffled, become separators and leave the alphabet; the two
   * are rebalanced if needed; the digits are shuffled last.
   */
  function Partitioned(separators: Option<seq<byte>>, alphabet: seq<byte>, salt: seq<byte>): (r: (seq<byte>, seq<byte>))
    requires CanPartition(separators, alphabet)
  {
    var seps := Only(Candidates(separators), alphabet);
    var alph := Except(alphabet, seps);
    PartitionFits(separators, alphabet, salt);
    var balanced := Rebalanced(alph, Shuffled(seps, salt));
    (Shuffled(balanced.0, salt), balanced.1)
  }

  /** Under `CanPartition`, a rebalance never runs out of digits. */
  lemma PartitionFits(separators: Option<seq<byte>>, alphabet: seq<byte>, salt: seq<byte>)
    requires CanPartition(separators, alphabet)
    ensures var seps := Only(Candidates(separators), alphabet);
            CanRebalance(Except(alphabet, seps), Shuffled(seps, salt))
  {
    var seps := Only(Candidates(separators), alphabet);
    if |seps| == 0 {
      ExceptNothing(alphabet);
    }
  }

  /** Removing nothing keeps everything. */
  lemma {:induction false} ExceptNothing(s: seq<byte>)
    ensures Except(s, []) == s
  {
    if |s| > 0 {
      ExceptNothing(s[1..]);
      assert s == [s[0]] + s[1..];
    }
  }

  /** `alphabet_and_separators`: filters, an in-place shuffle of each part, and the rebalance between. */
  method AlphabetAndSeparators(separators: Option<seq<byte>>, alphabet: seq<byte>, salt: seq<byte>)
    returns (digits: seq<byte>, seps: seq<byte>)
    requires CanPartition(separators, alphabet)
    ensures (digits, seps) == Partitioned(separators, alphabet, salt)
  {
    var candidates := Candidates(separators);
    seps := Only(candidates, alphabet);
    digits := Except(alphabet, seps);
    PartitionFits(separators, alphabet, salt);
    seps := ShuffleCopy(seps, salt);
    digits, seps := RebalanceParts(digits, seps);
    digits := ShuffleCopy(digits, salt);
  }

  /** The rebalance step of `alphabet_and_separators`, on the two vectors. */
  method RebalanceParts(alphabet: seq<byte>, separators: seq<byte>) returns (digits: seq<byte>, seps: seq<byte>)
    requires CanRebalance(alphabet, separators)
    ensures (digits, seps) == Rebalanced(alphabet, separators)
  {
    digits, seps := alphabet, separators;
    if |seps| == 0 || 2 * |digits| > 7 * |seps| {
      var length := (2 * |digits| + 6) / 7;
      if length == 1 {
        length := 2;
      }
      if length > |seps| {
        var diff := length - |seps|;
        seps := seps + digits[..diff];
        digits := digits[diff..];
      } else {
        seps := seps[..length];
      }
    }
  }

  /** Shuffles a vector in place, with the vector held in an array. */
  method ShuffleCopy(s: seq<byte>, salt: seq<byte>) returns (r: seq<byte>)
    ensures r == Shuffled(s, salt)
  {
    var values := new byte[|s|](i requires 0 <= i < |s| => s[i]);
    assert values[..] == s;
    Shuffle.Shuffle(values, salt);
    r := values[..];
  }

  /**
   * The split of a duplicate-free alphabet: digits and separators come
   * from the alphabet and never share a byte; digits stay duplicate-free;
   * a digit with one digit left always has a separator beside it.
   */
  lemma PartitionedSplit(separators: Option<seq<byte>>, alphabet: seq<byte>, salt: seq<byte>)
    requires CanPartition(separators, alphabet) && NoDup(alphabet)
    ensures var (digits, seps) := Partitioned(separators, alphabet, salt);
            Within(digits, alphabet) && Within(seps, alphabet) && Disjoint(digits, seps) && NoDup(digits)
            && (NoDup(Candidates(separators)) ==> NoDup(seps))
            && (|digits| > 0 ==> |seps| > 0)
  {
    var seps0 := Only(Candidates(separators), alphabet);
    var alph0 := Except(alphabet, seps0);
    var shuffled := Shuffled(seps0, salt);
    PartitionFits(separators, alphabet, salt);
    FilterSplit(Candidates(separators), alphabet);
    ShuffledSame(seps0, salt);
    DisjointWithin(alph0, seps0, shuffled);
    WithinTrans(shuffled, seps0, alphabet);
    var balanced := Rebalanced(alph0, shuffled);
    RebalancedSplit(alph0, shuffled);
    ShuffledSame(balanced.0, salt);
    WithinTrans(Shuffled(balanced.0, salt), balanced.0, alph0);
    WithinTrans(Shuffled(balanced.0, salt), alph0, alphabet);
    WithinConcat(alph0, shuffled, alphabet);
    WithinTrans(balanced.1, alph0 + shuffled, alphabet);
    WithinDisjoint(Shuffled(balanced.0, salt), balanced.0, balanced.1);
  }

  /**
   * The first step of the split: the separators found in a duplicate-free
   * alphabet and the digits left over share nothing and come from it.
   */
  lemma FilterSplit(candidates: seq<byte>, alphabet: seq<byte>)
    requires NoDup(alphabet)
    ensures var seps := Only(candidates, alphabet);
            var alph := Except(alphabet, seps);
            NoDup(alph) && Disjoint(alph, seps) && Within(seps, alphabet) && Within(alph, alphabet)
            && (NoDup(candidates) ==> NoDup(seps))
  {
    var seps := Only(candidates, alphabet);
    ExceptNoDup(alphabet, seps);
    if NoDup(candidates) {
      OnlyNoDup(candidates, alphabet);
    }
  }

  /** A shuffle has the same bytes as what it shuffles, and keeps it duplicate-free. */
  lemma ShuffledSame(s: seq<byte>, salt: seq<byte>)
    ensures Within(Shuffled(s, salt), s) && Within(s, Shuffled(s, salt))
    ensures NoDup(s) ==> NoDup(Shuffled(s, salt))
  {
    forall x ensures x in Shuffled(s, salt) <==> x in s {
      ShuffledMembers(s, salt, x);
    }
    if NoDup(s) {
      ShuffledNoDup(s, salt);
    }
  }

  /** The rebalance step moves bytes between the parts without creating or sharing any. */
  lemma RebalancedSplit(alphabet: seq<byte>, separators: seq<byte>)
    requires CanRebalance(alphabet, separators)
    requires NoDup(alphabet) && Disjoint(alphabet, separators)
    ensures var (digits, seps) := Rebalanced(alphabet, separators);
            Within(digits, alphabet) && Within(seps, alphabet + separators)
            && Disjoint(digits, seps) && NoDup(digits)
            && (NoDup(separators) ==> NoDup(seps))
            && (|digits| > 0 ==> |seps| > 0)
  {
    var seps := Rebalanced(alphabet, separators).1;
    if NeedsRebalance(|alphabet|, |separators|) {
      RebalanceSplit(alphabet, separators);
    }
    forall x | x in seps ensures x in alphabet + separators {
      assert x in alphabet || x in separators;
    }
  }

  /** A rebalance moves bytes between the parts without creating or sharing any. */
  lemma RebalanceSplit(alphabet: seq<byte>, separators: seq<byte>)
    requires SeparatorTarget(|alphabet|) <= |alphabet| + |separators|
    requires NoDup(alphabet) && Disjoint(alphabet, separators)
    ensures var (digits, seps) := Rebalance(alphabet, separators);
            Within(digits, alphabet) && (forall x :: x in seps ==> x in alphabet || x in separators)
            && Disjoint(digits, seps) && NoDup(digits)
            && (NoDup(separators) ==> NoDup(seps))
            && (|digits| > 0 ==> |seps| > 0)
  {
    var length := SeparatorTarget(|alphabet|);
    if length > |separators| {
      var diff := length - |separators|;
      var front, back := alphabet[..diff], alphabet[diff..];
      assert alphabet == front + back;
      SliceWithin(alphabet, diff, |alphabet|);
      SliceWithin(alphabet, 0, diff);
      NoDupSplit(alphabet, diff);
      if NoDup(separators) {
        NoDupJoin(separators, front);
      }
    } else {
      SliceWithin(separators, 0, length);
      if NoDup(separators) {
        NoDupSlice(separators, length);
      }
    }
  }

  /** The two ends of a duplicate-free sequence are duplicate-free and share nothing. */
  lemma NoDupSplit(s: seq<byte>, n: nat)
    requires NoDup(s) && n <= |s|
    ensures NoDup(s[..n]) && NoDup(s[n..]) && Disjoint(s[n..], s[..n])
  {
    forall x | x in s[n..] ensures x !in s[..n] {
      var j :| 0 <= j < |s| - n && s[n..][j] == x;
      assert s[n + j] == x;
      assert forall i :: 0 <= i < n ==> s[..n][i] == s[i];
    }
    assert forall i :: 0 <= i < |s| - n ==> s[n..][i] == s[n + i];
  }

  /** A prefix of a duplicate-free sequence is duplicate-free. */
  lemma NoDupSlice(s: seq<byte>, n: nat)
    requires NoDup(s) && n <= |s|
    ensures NoDup(s[..n])
  {
  }

  /** Two duplicate-free sequences that share nothing join into one. */
  lemma NoDupJoin(a: seq<byte>, b: seq<byte>)
    requires NoDup(a) && NoDup(b) && Disjoint(a, b)
    ensures NoDup(a + b)
  {
    var s := a + b;
    forall i, j | 0 <= i < j < |s| ensures s[i] != s[j] {
      if i < |a| && j >= |a| {
        assert s[i] == a[i] && s[j] == b[j - |a|];
        assert a[i] in a;
      } else if j < |a| {
        assert s[i] == a[i] && s[j] == a[j];
      } else {
        assert s[i] == b[i - |a|] && s[j] == b[j - |a|];
      }
    }
  }

  /** Filtering keeps a sequence duplicate-free. */
  lemma {:induction false} ExceptNoDup(s: seq<byte>, removed: seq<byte>)
    requires NoDup(s)
    ensures NoDup(Except(s, removed))
  {
    if |s| > 0 {
      ExceptNoDup(s[1..], removed);
      assert s == [s[0]] + s[1..];
    }
  }

  /** Filtering keeps a sequence duplicate-free. */
  lemma {:induction false} OnlyNoDup(s: seq<byte>, allowed: seq<byte>)
    requires NoDup(s)
    ensures NoDup(Only(s, allowed))
  {
    if |s| > 0 {
      OnlyNoDup(s[1..], allowed);
      assert s == [s[0]] + s[1..];
    }
  }

  /** The rebalance decision and target exactly as the source computes them. */
  lemma RebalanceRule(separators: Option<seq<byte>>, alphabet: seq<byte>, salt: seq<byte>)
    requires CanPartition(separators, alphabet)
    ensures var seps0 := Only(Candidates(separators), alphabet);
            var a := |Except(alphabet, seps0)|;
            var (digits, seps) := Partitioned(separators, alphabet, salt);
            (NeedsRebalance(a, |seps0|) ==> |seps| == SeparatorTarget(a) && |digits| + |seps| >= a)
            && (!NeedsRebalance(a, |seps0|) ==> seps == Shuffled(seps0, salt) && |digits| == a)
  {
    var seps0 := Only(Candidates(separators), alphabet);
    var alph0 := Except(alphabet, seps0);
    PartitionFits(separators, alphabet, salt);
    var balanced := Rebalanced(alph0, Shuffled(seps0, salt));
    assert Partitioned(separators, alphabet, salt) == (Shuffled(balanced.0, salt), balanced.1);
  }

  // ---------------------------------------------------------------------
  // guards

  /** `ceil(a / 12)` guards. */
  function GuardCount(a: nat): (r: nat)
    ensures a > 0 ==> 1 <= r <= a && 12 * (r - 1) < a <= 12 * r
  {
    (a + 11) / 12
  }

  /** When `guards` does not panic: a tiny alphabet needs enough separators to take the guards from. */
  predicate CanGuard(alphabet: seq<byte>, separators: seq<byte>)
  {
    |alphabet| < 3 ==> GuardCount(|alphabet|) <= |separators|
  }

  /**
   * What `guards` returns and leaves behind, as (guards, digits,
   * separators): the guards come off the front of the digits, or of the
   * separators when there are fewer than three digits.
   */
  function GuardSplit(alphabet: seq<byte>, separators: seq<byte>): (r: (seq<byte>, seq<byte>, seq<byte>))
    requires CanGuard(alphabet, separators)
  {
    var n := GuardCount(|alphabet|);
    if |alphabet| < 3 then (separators[..n], alphabet, separators[n..])
    else (alphabet[..n], alphabet[n..], separators)
  }

  /** `guards`: takes the guards off the front of one of the two vectors. */
  method Guards(alphabet: seq<byte>, separators: seq<byte>) returns (guards: seq<byte>, digits: seq<byte>, seps: seq<byte>)
    requires CanGuard(alphabet, separators)
    ensures (guards, digits, seps) == GuardSplit(alphabet, separators)
  {
    var guardCount := (|alphabet| + 11) / 12;
    digits, seps := alphabet, separators;
    if |alphabet| < 3 {
      guards := seps[..guardCount];
      seps := seps[guardCount..];
    } else {
      guards := digits[..guardCount];
      digits := digits[guardCount..];
    }
  }

  /**
   * The guard split divides a part into guards and the rest, leaving the
   * other part alone: nothing is lost and the counts add up.
   */
  lemma GuardSplitParts(alphabet: seq<byte>, separators: seq<byte>)
    requires CanGuard(alphabet, separators)
    ensures var (guards, digits, seps) := GuardSplit(alphabet, separators);
            |guards| == GuardCount(|alphabet|)
            && (|alphabet| < 3 ==> digits == alphabet && guards + seps == separators)
            && (|alphabet| >= 3 ==> seps == separators && guards + digits == alphabet)
  {
    var n := GuardCount(|alphabet|);
    if |alphabet| < 3 {
      assert separators[..n] + separators[n..] == separators;
    } else {
      assert alphabet[..n] + alphabet[n..] == alphabet;
    }
  }

  /**
   * Taking guards off a split with duplicate-free digits keeps the digits
   * duplicate-free and the three parts pairwise disjoint and drawn from the
   * two parts they came from. The separators need to be duplicate-free only
   * when the guards are cut from them, that is, with fewer than three digits.
   */
  lemma GuardSplitDisjoint(alphabet: seq<byte>, separators: seq<byte>)
    requires CanGuard(alphabet, separators)
    requires NoDup(alphabet) && (|alphabet| < 3 ==> NoDup(separators)) && Disjoint(alphabet, separators)
    ensures var (guards, digits, seps) := GuardSplit(alphabet, separators);
            NoDup(digits) && Disjoint(digits, seps) && Disjoint(digits, guards) && Disjoint(seps, guards)
            && Within(digits, alphabet) && Within(guards, alphabet + separators) && Within(seps, separators)
  {
    var n := GuardCount(|alphabet|);
    if |alphabet| < 3 {
      GuardsFromSeparators(alphabet, separators, n);
    } else {
      GuardsFromAlphabet(alphabet, separators, n);
    }
  }

  /** Guards cut from the front of duplicate-free separators that the digits avoid. */
  lemma GuardsFromSeparators(alphabet: seq<byte>, separators: seq<byte>, n: nat)
    requires n <= |separators| && NoDup(separators) && Disjoint(alphabet, separators)
    ensures Disjoint(separators[n..], separators[..n]) && Disjoint(alphabet, separators[n..])
    ensures Disjoint(alphabet, separators[..n])
    ensures Within(separators[n..], separators) && Within(separators[..n], alphabet + separators)
  {
    NoDupSplit(separators, n);
    SliceWithin(separators, n, |separators|);
    SliceWithin(separators, 0, n);
    DisjointWithin(alphabet, separators, separators[n..]);
    DisjointWithin(alphabet, separators, separators[..n]);
    WithinRight(alphabet, separators);
    WithinTrans(separators[..n], separators, alphabet + separators);
  }

  /** Guards cut from the front of duplicate-free digits that the separators avoid. */
  lemma GuardsFromAlphabet(alphabet: seq<byte>, separators: seq<byte>, n: nat)
    requires n <= |alphabet| && NoDup(alphabet) && Disjoint(alphabet, separators)
    ensures NoDup(alphabet[n..]) && Disjoint(alphabet[n..], alphabet[..n])
    ensures Disjoint(alphabet[n..], separators) && Disjoint(separators, alphabet[..n])
    ensures Within(alphabet[n..], alphabet) && Within(alphabet[..n], alphabet + separators)
  {
    NoDupSplit(alphabet, n);
    SliceWithin(alphabet, n, |alphabet|);
    SliceWithin(alphabet, 0, n);
    WithinDisjoint(alphabet[n..], alphabet, separators);
    forall x | x in separators ensures x !in alphabet[..n] {
      assert x !in alphabet;
    }
    WithinLeft(alphabet, separators);
    WithinTrans(alphabet[..n], alphabet, alphabet + separators);
  }

  // ---------------------------------------------------------------------
  // build

  /**
   * What `build` returns: the distinct alphabet, split into digits and
   * separators, with guards taken off; salt and minimum length carried
   * over. The only errors are the alphabet's.
   */
  function Built(b: HarshBuilder): (r: Result<Harsh, BuildError>)
    ensures r.Err? <==> DistinctAlphabet(b.alphabet).Err?
    ensures r.Err? ==> r.error == DistinctAlphabet(b.alphabet).error
  {
    match DistinctAlphabet(b.alphabet)
    case Err(e) => Err(e)
    case Ok(alphabet) =>
      if |alphabet| < MINIMUM_ALPHABET_LENGTH then Err(AlphabetLength)
      else
        var salt := if b.salt.Some? then b.salt.value else [];
        var (digits, seps) := Partitioned(b.separators, alphabet, salt);
        PartitionedGuardable(b.separators, alphabet, salt);
        var (guards, digits', seps') := GuardSplit(digits, seps);
        Ok(Harsh(digits', guards, b.hashLength, salt, seps'))
  }

  /** A partition always leaves enough separators for the guard split. */
  lemma PartitionedGuardable(separators: Option<seq<byte>>, alphabet: seq<byte>, salt: seq<byte>)
    requires CanPartition(separators, alphabet) && NoDup(alphabet)
    ensures var (digits, seps) := Partitioned(separators, alphabet, salt);
            CanGuard(digits, seps)
  {
    PartitionedSplit(separators, alphabet, salt);
  }

  /** `build`: the three steps in order, each as its own routine. */
  method Build(b: HarshBuilder) returns (r: Result<Harsh, BuildError>)
    ensures r == Built(b)
  {
    var unique := UniqueAlphabet(b.alphabet);
    if unique.Err? {
      return Err(unique.error);
    }
    var alphabet := unique.value;
    if |alphabet| < MINIMUM_ALPHABET_LENGTH {
      return Err(AlphabetLength);
    }
    var salt := if b.salt.Some? then b.salt.value else [];
    var digits, seps := AlphabetAndSeparators(b.separators, alphabet, salt);
    PartitionedGuardable(b.separators, alphabet, salt);
    var guards, digits', seps' := Guards(digits, seps);
    r := Ok(Harsh(digits', guards, b.hashLength, salt, seps'));
  }

  /**
   * What `build` returns keeps its three parts apart: the digits have no
   * duplicate, digits, separators and guards share no byte, and all of them
   * come from the distinct alphabet; so a build whose parts are large
   * enough to encode with is well-formed. Distinct separator candidates
   * are needed only when the guards come from the separators, that is, when
   * the partition leaves fewer than three digits.
   */
  lemma BuiltWellFormed(b: HarshBuilder)
    requires Built(b).Ok?
    requires var unique := DistinctAlphabet(b.alphabet).value;
             var salt := if b.salt.Some? then b.salt.value else [];
             NoDup(Candidates(b.separators)) || |Partitioned(b.separators, unique, salt).0| >= 3
    ensures var h := Built(b).value;
            var unique := DistinctAlphabet(b.alphabet).value;
            NoDup(h.alphabet) && Disjoint(h.alphabet, h.separators) && Disjoint(h.alphabet, h.guards)
            && Disjoint(h.separators, h.guards)
            && Within(h.alphabet, unique) && Within(h.separators, unique) && Within(h.guards, unique)
            && (Encodable(h) ==> WellFormed(h))
  {
    var alphabet := DistinctAlphabet(b.alphabet).value;
    var salt := if b.salt.Some? then b.salt.value else [];
    var (digits, seps) := Partitioned(b.separators, alphabet, salt);
    PartitionedSplit(b.separators, alphabet, salt);
    PartitionedGuardable(b.separators, alphabet, salt);
    GuardSplitDisjoint(digits, seps);
    var (guards, digits', seps') := GuardSplit(digits, seps);
    assert Built(b).value == Harsh(digits', guards, b.hashLength, salt, seps');
    WithinTrans(digits', digits, alphabet);
    WithinTrans(seps', seps, alphabet);
    WithinConcat(digits, seps, alphabet);
    WithinTrans(guards, digits + seps, alphabet);
  }

  /**
   * The rebalance leaves an alphabet of four or more digits at least two
   * digits and a separator, and two separators when fewer than three
   * digits are left.
   */
  lemma RebalancedSizes(alphabet: seq<byte>, separators: seq<byte>)
    requires CanRebalance(alphabet, separators) && |alphabet| >= 4
    ensures var (digits, seps) := Rebalanced(alphabet, separators);
            |digits| >= 2 && |seps| >= 1 && (|digits| < 3 ==> |seps| >= 2)
  {
    if NeedsRebalance(|alphabet|, |separators|) {
      var a := |alphabet|;
      var n := (2 * a + 6) / 7;
      assert 7 * n <= 2 * a + 6;
      assert SeparatorTarget(a) <= a - 2;
    }
  }

  /** With those sizes, taking the guards off leaves two digits, a separator and a guard. */
  lemma GuardSizes(alphabet: seq<byte>, separators: seq<byte>)
    requires CanGuard(alphabet, separators)
    requires |alphabet| >= 2 && |separators| >= 1 && (|alphabet| < 3 ==> |separators| >= 2)
    ensures var (guards, digits, seps) := GuardSplit(alphabet, separators);
            |digits| >= 2 && |seps| >= 1 && |guards| >= 1
  {
    GuardSplitParts(alphabet, separators);
  }

  /**
   * A build can encode every sequence of values once at least four of its
   * distinct bytes are not separators and none of them is zero.
   */
  lemma BuiltEncodable(b: HarshBuilder)
    requires Built(b).Ok?
    requires var unique := DistinctAlphabet(b.alphabet).value;
             0 !in unique && |Except(unique, Only(Candidates(b.separators), unique))| >= 4
    ensures Encodable(Built(b).value)
  {
    var alphabet := DistinctAlphabet(b.alphabet).value;
    var salt := if b.salt.Some? then b.salt.value else [];
    var seps0 := Only(Candidates(b.separators), alphabet);
    var alph0 := Except(alphabet, seps0);
    PartitionFits(b.separators, alphabet, salt);
    var balanced := Rebalanced(alph0, Shuffled(seps0, salt));
    RebalancedSizes(alph0, Shuffled(seps0, salt));
    var (digits, seps) := Partitioned(b.separators, alphabet, salt);
    assert (digits, seps) == (Shuffled(balanced.0, salt), balanced.1);
    PartitionedSplit(b.separators, alphabet, salt);
    PartitionedGuardable(b.separators, alphabet, salt);
    GuardSizes(digits, seps);
    GuardSplitDigits(digits, seps, alphabet);
  }

  /** The digits left after the guards are drawn from where the digits came from. */
  lemma GuardSplitDigits(digits: seq<byte>, seps: seq<byte>, alphabet: seq<byte>)
    requires CanGuard(digits, seps) && Within(digits, alphabet)
    ensures Within(GuardSplit(digits, seps).1, alphabet)
  {
    var n := GuardCount(|digits|);
    if |digits| >= 3 {
      SliceWithin(digits, n, |digits|);
    }
  }

  /** The default separators are distinct. */
  lemma DefaultSeparatorsNoDup()
    ensures NoDup(DEFAULT_SEPARATORS)
  {
    var s := DEFAULT_SEPARATORS;
    forall i, j | 0 <= i < j < |s| ensures s[i] != s[j] {
    }
  }

  /**
   * At least forty-eight default alphabet bytes are no separator, and
   * zero is not among them.
   */
  lemma DefaultDigits(separators: seq<byte>)
    requires |separators| <= 14
    ensures 0 !in DEFAULT_ALPHABET
    ensures |Except(DEFAULT_ALPHABET, Only(separators, DEFAULT_ALPHABET))| >= 48
  {
    RunMembers(97, 26, 0);
    RunMembers(65, 26, 0);
    RunMembers(49, 9, 0);
    DefaultAlphabetNoDup();
    var seps := Only(separators, DEFAULT_ALPHABET);
    FilterCount(DEFAULT_ALPHABET, seps);
    OnlyNoDup(DEFAULT_ALPHABET, seps);
    NoDupWithinLength(Only(DEFAULT_ALPHABET, seps), seps);
  }

  /**
   * A builder left at the default alphabet and separators, whatever its
   * salt and minimum length, builds a well-formed configuration.
   */
  lemma DefaultBuildWellFormed(b: HarshBuilder)
    requires b.alphabet.None? && b.separators.None?
    ensures Built(b).Ok? && WellFormed(Built(b).value)
  {
    assert DistinctAlphabet(b.alphabet) == Ok(DEFAULT_ALPHABET);
    assert Candidates(b.separators) == DEFAULT_SEPARATORS;
    DefaultSeparatorsNoDup();
    DefaultDigits(DEFAULT_SEPARATORS);
    BuiltEncodable(b);
    BuiltWellFormed(b);
  }

  /**
   * Every non-empty sequence of values encoded by a default-alphabet
   * configuration decodes back to itself.
   */
  lemma DefaultRoundTrip(b: HarshBuilder, values: seq<u64>)
    requires b.alphabet.None? && b.separators.None? && |values| > 0
    ensures Built(b).Ok? && Encodable(Built(b).value)
    ensures Decoded(Built(b).value, Encoded(Built(b).value, values)) == Ok(values)
  {
    DefaultBuildWellFormed(b);
    RoundTrip(Built(b).value, values);
  }

  /** `build` hands the salt and the minimum length to the codec unchanged. */
  lemma BuiltPassesThrough(b: HarshBuilder)
    requires Built(b).Ok?
    ensures Built(b).value.hashLength == b.hashLength
    ensures Built(b).value.salt == (if b.salt.Some? then b.salt.value else [])
  {
  }

  /** `build` never reports a separator error. */
  lemma BuiltNoSeparatorError(b: HarshBuilder)
    ensures Built(b) != Err(Separator)
  {
  }
}
