// The hashids codec: a `Harsh` configuration turns a sequence of `u64`
// into a hashid and back. Every hashid starts with a lottery byte chosen by
// a checksum of the values; each value is written in base |alphabet| over an
// alphabet re-shuffled once per value, values are joined by separator bytes,
// and short hashids are padded with guard bytes and alphabet halves.

module Codec {
  import opened Bytes
  import opened Shuffle
  import opened Math
  import opened Errors

  /** The codec's configuration. A builder produces it; the codec never changes it. */
  datatype Harsh = Harsh(alphabet: seq<byte>, guards: seq<byte>, hashLength: nat, salt: seq<byte>, separators: seq<byte>)

  /**
   * What `encode` needs of its configuration to finish on `values` without
   * a panic or an endless loop: an alphabet of at least two digits; for more
   * than one value, separators to pick from and no zero byte in the alphabet
   * (the separator choice reduces modulo the first digit's byte plus the
   * index); guards whenever padding can be needed.
   */
  predicate CanEncode(h: Harsh, values: seq<u64>)
  {
    |values| == 0 ||
    (|h.alphabet| >= 2
     && (|values| > 1 ==> |h.separators| > 0 && 0 !in h.alphabet)
     && (h.hashLength > 2 ==> |h.guards| > 0))
  }

  /** A configuration that can encode every sequence of values. */
  predicate Encodable(h: Harsh)
  {
    |h.alphabet| >= 2 && |h.separators| > 0 && |h.guards| > 0 && 0 !in h.alphabet
  }

  /**
   * A configuration whose hashids decode: encodable, with a duplicate-free
   * alphabet and with alphabet, separators and guards pairwise disjoint.
   */
  predicate WellFormed(h: Harsh)
  {
    Encodable(h) && NoDup(h.alphabet)
    && Disjoint(h.alphabet, h.separators) && Disjoint(h.alphabet, h.guards)
    && Disjoint(h.separators, h.guards)
  }

  lemma EncodableCanEncode(h: Harsh, values: seq<u64>)
    requires Encodable(h)
    ensures CanEncode(h, values)
  {
  }

  // ---------------------------------------------------------------------
  // create_nhash

  /** `create_nhash`: folds `a + values[i] % (i + 100)` from the left. */
  function NHash(values: seq<u64>): nat
  {
    if |values| == 0 then 0
    else NHash(values[..|values| - 1]) + values[|values| - 1] % (|values| - 1 + 100)
  }

  /** The sum of `values[i] % (start + i + 100)` over the indices of `values`. */
  function NHashSum(values: seq<u64>, start: nat): nat
  {
    if |values| == 0 then 0
    else values[0] % (start + 100) + NHashSum(values[1..], start + 1)
  }

  /** The fold computes the sum of every value modulo its index plus 100. */
  lemma NHashIsSum(values: seq<u64>)
    ensures NHash(values) == NHashSum(values, 0)
  {
    NHashSplit(values, 0);
    assert values[0..] == values;
  }

  lemma {:induction false} NHashSplit(values: seq<u64>, k: nat)
    requires k <= |values|
    ensures NHash(values) == NHash(values[..k]) + NHashSum(values[k..], k)
    decreases |values| - k
  {
    if k == |values| {
      assert values[..k] == values;
    } else {
      NHashSplit(values, k + 1);
      assert values[..k + 1][..k] == values[..k];
      assert values[k..][1..] == values[k + 1..];
    }
  }

  // ---------------------------------------------------------------------
  // hash and unhash

  /**
   * `value` written in base |alphabet| with `alphabet[d]` as digit `d`, most
   * significant digit first. Zero is the one digit `alphabet[0]`.
   */
  function HashOf(value: nat, alphabet: seq<byte>): (r: seq<byte>)
    requires |alphabet| >= 2
    ensures |r| >= 1 && Within(r, alphabet)
    decreases value
  {
    if value < |alphabet| then [alphabet[value]]
    else HashOf(value / |alphabet|, alphabet) + [alphabet[value % |alphabet|]]
  }

  /**
   * `hash`: pushes the least significant digit, divides, stops once the
   * value reaches zero, then reverses the digits.
   */
  method Hash(value: u64, alphabet: seq<byte>) returns (r: seq<byte>)
    requires |alphabet| >= 2
    ensures r == HashOf(value, alphabet)
  {
    var length := |alphabet|;
    var v: nat := value;
    var digits: seq<byte> := [];
    while true
      invariant HashOf(v, alphabet) + Reverse(digits) == HashOf(value, alphabet)
      decreases v
    {
      HashStep(v, alphabet, digits, value);
      digits := digits + [alphabet[v % length]];
      v := v / length;
      if v == 0 {
        r := Reverse(digits);
        return;
      }
    }
  }

  /** One turn of `hash`'s loop: the digit pushed is the last one of `HashOf(v)`. */
  lemma HashStep(v: nat, alphabet: seq<byte>, digits: seq<byte>, value: nat)
    requires |alphabet| >= 2
    requires HashOf(v, alphabet) + Reverse(digits) == HashOf(value, alphabet)
    ensures var L := |alphabet|;
            var digits' := digits + [alphabet[v % L]];
            if v / L == 0 then Reverse(digits') == HashOf(value, alphabet)
            else v / L < v && HashOf(v / L, alphabet) + Reverse(digits') == HashOf(value, alphabet)
  {
    var L := |alphabet|;
    var q, x := v / L, alphabet[v % L];
    HashLast(v, alphabet);
    ReverseSnoc(digits, x);
    if q != 0 {
      assert (HashOf(q, alphabet) + [x]) + Reverse(digits) == HashOf(q, alphabet) + ([x] + Reverse(digits));
    }
  }

  /** The last digit of a hash is the value's residue; the digits before it are the quotient's hash. */
  lemma HashLast(v: nat, alphabet: seq<byte>)
    requires |alphabet| >= 2
    ensures v / |alphabet| == 0 ==> HashOf(v, alphabet) == [alphabet[v % |alphabet|]]
    ensures v / |alphabet| != 0 ==> v / |alphabet| < v && HashOf(v, alphabet) == HashOf(v / |alphabet|, alphabet) + [alphabet[v % |alphabet|]]
  {
    DivZero(v, |alphabet|);
  }

  /** The digit a byte stands for: its first position in the alphabet, zero when absent. */
  function Digit(alphabet: seq<byte>, x: byte): nat
  {
    match IndexOf(alphabet, x)
    case Some(k) => k
    case None => 0
  }

  /** `s` read as a base-|alphabet| numeral, most significant digit first. */
  function Horner(s: seq<byte>, alphabet: seq<byte>): nat
  {
    if |s| == 0 then 0
    else Horner(s[..|s| - 1], alphabet) * |alphabet| + Digit(alphabet, s[|s| - 1])
  }

  /**
   * One term of `unhash`: the digit at `idx` times |alphabet| to the power of
   * the number of digits after it; `None` when the byte is not in the
   * alphabet or when the power or the product leaves `u64`.
   */
  function Term(input: seq<byte>, alphabet: seq<byte>, idx: nat): (r: Option<u64>)
    requires idx < |input|
  {
    match IndexOf(alphabet, input[idx])
    case None => None
    case Some(pos) =>
      var b := Pow(|alphabet|, |input| - idx - 1);
      if b >= U64_MODULUS then None
      else if pos * b >= U64_MODULUS then None
      else Some(pos * b)
  }

  /**
   * The fold of `unhash` over the first `n` bytes as the source writes it:
   * the final addition is unchecked, so the sum is kept as an unbounded
   * integer that can exceed `u64`.
   */
  function UnhashPrefixAsWritten(input: seq<byte>, alphabet: seq<byte>, n: nat): Option<int>
    requires n <= |input|
  {
    if n == 0 then Some(0)
    else match Term(input, alphabet, n - 1)
      case None => None
      case Some(c) =>
        match UnhashPrefixAsWritten(input, alphabet, n - 1)
        case None => None
        case Some(a) => Some(a + c)
  }

  /** `unhash` as written. */
  function UnhashAsWritten(input: seq<byte>, alphabet: seq<byte>): Option<int>
  {
    UnhashPrefixAsWritten(input, alphabet, |input|)
  }

  /**
   * The fold of `unhash` as a release build runs it: the unchecked addition
   * wraps modulo 2^64.
   */
  function UnhashPrefixWrapping(input: seq<byte>, alphabet: seq<byte>, n: nat): Option<u64>
    requires n <= |input|
  {
    if n == 0 then Some(0)
    else match Term(input, alphabet, n - 1)
      case None => None
      case Some(c) =>
        match UnhashPrefixWrapping(input, alphabet, n - 1)
        case None => None
        case Some(a) => Some((a + c) % U64_MODULUS)
  }

  /** `unhash` as a release build runs it. */
  function UnhashWrapping(input: seq<byte>, alphabet: seq<byte>): Option<u64>
  {
    UnhashPrefixWrapping(input, alphabet, |input|)
  }

  /** The fold of `unhash` over the first `n` bytes with the addition checked too. */
  function UnhashPrefix(input: seq<byte>, alphabet: seq<byte>, n: nat): Option<u64>
    requires n <= |input|
  {
    if n == 0 then Some(0)
    else match Term(input, alphabet, n - 1)
      case None => None
      case Some(c) =>
        match UnhashPrefix(input, alphabet, n - 1)
        case None => None
        case Some(a) => if a + c < U64_MODULUS then Some(a + c) else None
  }

  /** `unhash`, with `checked_add` in place of the unchecked addition. */
  function Unhash(input: seq<byte>, alphabet: seq<byte>): Option<u64>
  {
    UnhashPrefix(input, alphabet, |input|)
  }

  /**
   * What `unhash` is meant to compute: the base-|alphabet| value of `input`
   * when every byte is a digit, the power of the leading digit fits in `u64`
   * and so does the value; `None` otherwise.
   */
  function UnhashValue(input: seq<byte>, alphabet: seq<byte>): Option<u64>
  {
    if Within(input, alphabet)
       && (|input| == 0 || Pow(|alphabet|, |input| - 1) < U64_MODULUS)
       && Horner(input, alphabet) < U64_MODULUS
    then Some(Horner(input, alphabet))
    else None
  }

  lemma PowPositive(b: nat, e: nat)
    requires b >= 1
    ensures Pow(b, e) >= 1
  {
  }

  /** Powers of a base of at least one grow with the exponent. */
  lemma {:induction false} PowMonotone(b: nat, e: nat, f: nat)
    requires b >= 1 && e <= f
    ensures Pow(b, e) <= Pow(b, f)
    decreases f
  {
    if e < f {
      PowMonotone(b, e, f - 1);
      PowPositive(b, f - 1);
      MulRight(1, b, Pow(b, f - 1));
    }
  }

  /** Extending a prefix by one digit: the value times the base plus that digit. */
  lemma HornerSnoc(s: seq<byte>, alphabet: seq<byte>, n: nat)
    requires n < |s|
    ensures Horner(s[..n + 1], alphabet) == Horner(s[..n], alphabet) * |alphabet| + Digit(alphabet, s[n])
  {
    assert s[..n + 1][..n] == s[..n];
  }

  /**
   * Reading one more digit of `s`, all shifted by `L^e`: the shorter prefix
   * shifted one place further plus the new digit's share is the longer
   * prefix's shifted value, and neither share exceeds it.
   */
  lemma HornerShift(s: seq<byte>, alphabet: seq<byte>, n: nat, e: nat)
    requires 1 <= n <= |s|
    ensures Horner(s[..n - 1], alphabet) * Pow(|alphabet|, e + 1) + Digit(alphabet, s[n - 1]) * Pow(|alphabet|, e)
            == Horner(s[..n], alphabet) * Pow(|alphabet|, e)
    ensures Horner(s[..n - 1], alphabet) * Pow(|alphabet|, e + 1) <= Horner(s[..n], alphabet) * Pow(|alphabet|, e)
    ensures Digit(alphabet, s[n - 1]) * Pow(|alphabet|, e) <= Horner(s[..n], alphabet) * Pow(|alphabet|, e)
  {
    var L := |alphabet|;
    var h, d, hn := Horner(s[..n - 1], alphabet), Digit(alphabet, s[n - 1]), Horner(s[..n], alphabet);
    HornerSnoc(s, alphabet, n - 1);
    PowSucc(L, e);
    ShiftDigit(h, L, d, Pow(L, e), Pow(L, e + 1), hn);
  }

  /** A prefix's value, shifted by the digits after it, is at most the whole value. */
  lemma {:induction false} HornerPrefixBound(s: seq<byte>, alphabet: seq<byte>, n: nat)
    requires n <= |s|
    ensures Horner(s[..n], alphabet) * Pow(|alphabet|, |s| - n) <= Horner(s, alphabet)
    decreases |s| - n
  {
    if n == |s| {
      assert s[..n] == s;
    } else {
      HornerPrefixBound(s, alphabet, n + 1);
      HornerShift(s, alphabet, n + 1, |s| - n - 1);
    }
  }

  /** A term that passes its checks is the digit times the power for its place. */
  lemma TermSome(input: seq<byte>, alphabet: seq<byte>, idx: nat)
    requires idx < |input| && Term(input, alphabet, idx).Some?
    ensures input[idx] in alphabet
    ensures Pow(|alphabet|, |input| - idx - 1) < U64_MODULUS
    ensures Term(input, alphabet, idx).value == Digit(alphabet, input[idx]) * Pow(|alphabet|, |input| - idx - 1)
  {
  }

  /** A term whose power and product fit passes its checks. */
  lemma TermFits(input: seq<byte>, alphabet: seq<byte>, idx: nat)
    requires idx < |input| && input[idx] in alphabet
    requires Pow(|alphabet|, |input| - idx - 1) < U64_MODULUS
    requires Digit(alphabet, input[idx]) * Pow(|alphabet|, |input| - idx - 1) < U64_MODULUS
    ensures Term(input, alphabet, idx) == Some(Digit(alphabet, input[idx]) * Pow(|alphabet|, |input| - idx - 1))
  {
  }

  /** The fold never produces a value other than the prefix's shifted value. */
  lemma {:induction false} UnhashPrefixSome(input: seq<byte>, alphabet: seq<byte>, n: nat)
    requires n <= |input| && UnhashPrefix(input, alphabet, n).Some?
    ensures forall i :: 0 <= i < n ==> input[i] in alphabet
    ensures UnhashPrefix(input, alphabet, n).value == Horner(input[..n], alphabet) * Pow(|alphabet|, |input| - n)
    ensures n >= 1 ==> Pow(|alphabet|, |input| - 1) < U64_MODULUS
    decreases n
  {
    if n == 0 {
      assert input[..0] == [];
    } else {
      UnhashPrefixSome(input, alphabet, n - 1);
      TermSome(input, alphabet, n - 1);
      HornerShift(input, alphabet, n, |input| - n);
    }
  }

  /** When nothing overflows, the fold adds up the shifted digits. */
  lemma {:induction false} UnhashPrefixFits(input: seq<byte>, alphabet: seq<byte>, n: nat)
    requires Within(input, alphabet) && 1 <= |input| && n <= |input|
    requires Pow(|alphabet|, |input| - 1) < U64_MODULUS
    requires Horner(input, alphabet) < U64_MODULUS
    ensures UnhashPrefix(input, alphabet, n) == Some(Horner(input[..n], alphabet) * Pow(|alphabet|, |input| - n))
    decreases n
  {
    if n > 0 {
      UnhashPrefixFits(input, alphabet, n - 1);
      HornerPrefixBound(input, alphabet, n);
      HornerShift(input, alphabet, n, |input| - n);
      PowMonotone(|alphabet|, |input| - n, |input| - 1);
      assert input[n - 1] in alphabet;
      TermFits(input, alphabet, n - 1);
    } else {
      assert input[..0] == [];
    }
  }

  /** `unhash` (with the checked addition) computes exactly `UnhashValue`. */
  lemma UnhashIsValue(input: seq<byte>, alphabet: seq<byte>)
    ensures Unhash(input, alphabet) == UnhashValue(input, alphabet)
  {
    assert input[..|input|] == input;
    if |input| == 0 {
    } else if Within(input, alphabet) && Pow(|alphabet|, |input| - 1) < U64_MODULUS && Horner(input, alphabet) < U64_MODULUS {
      UnhashPrefixFits(input, alphabet, |input|);
    } else if Unhash(input, alphabet).Some? {
      UnhashPrefixSome(input, alphabet, |input|);
      assert Within(input, alphabet) by {
        forall x | x in input ensures x in alphabet {
          var i :| 0 <= i < |input| && input[i] == x;
        }
      }
    }
  }

  /** `unhash` fails when a byte is not a digit of the alphabet. */
  lemma UnhashAbsent(input: seq<byte>, alphabet: seq<byte>, i: nat)
    requires i < |input| && input[i] !in alphabet
    ensures Unhash(input, alphabet) == None
  {
    UnhashIsValue(input, alphabet);
  }

  /** `unhash` fails when the power for the leading digit, or the value, leaves `u64`. */
  lemma UnhashOverflow(input: seq<byte>, alphabet: seq<byte>)
    requires |input| >= 1
    requires Pow(|alphabet|, |input| - 1) >= U64_MODULUS || Horner(input, alphabet) >= U64_MODULUS
    ensures Unhash(input, alphabet) == None
  {
    UnhashIsValue(input, alphabet);
  }

  /** The digit for `alphabet[k]` is `k` when the alphabet has no duplicates. */
  lemma DigitDistinct(alphabet: seq<byte>, k: nat)
    requires NoDup(alphabet) && k < |alphabet|
    ensures Digit(alphabet, alphabet[k]) == k
  {
    var r := IndexOf(alphabet, alphabet[k]);
    assert r.Some?;
  }

  /** Reading a hash back gives its value. */
  lemma {:induction false} HornerHash(value: nat, alphabet: seq<byte>)
    requires |alphabet| >= 2 && NoDup(alphabet)
    ensures Horner(HashOf(value, alphabet), alphabet) == value
    decreases value
  {
    var L := |alphabet|;
    var s := HashOf(value, alphabet);
    if value < L {
      DigitDistinct(alphabet, value);
      assert s == [alphabet[value]];
      assert s[..0] == [];
    } else {
      var q, d := value / L, value % L;
      DivBounds(value, L);
      HornerHash(q, alphabet);
      DigitDistinct(alphabet, d);
      var hq := HashOf(q, alphabet);
      assert s == hq + [alphabet[d]];
      HornerLast(hq, alphabet, alphabet[d]);
      assert Horner(s, alphabet) == q * L + d;
    }
  }

  /** Appending one byte: the value times the base plus that byte's digit. */
  lemma HornerLast(s: seq<byte>, alphabet: seq<byte>, x: byte)
    ensures Horner(s + [x], alphabet) == Horner(s, alphabet) * |alphabet| + Digit(alphabet, x)
  {
    assert (s + [x])[..|s|] == s;
  }

  /** A hash has no more digits than its value needs. */
  lemma {:induction false} HashLengthBound(value: nat, alphabet: seq<byte>)
    requires |alphabet| >= 2
    ensures Pow(|alphabet|, |HashOf(value, alphabet)| - 1) <= if value < |alphabet| then 1 else value
    decreases value
  {
    var L := |alphabet|;
    if value >= L {
      var q := value / L;
      DivBounds(value, L);
      HashLengthBound(q, alphabet);
      var e := |HashOf(q, alphabet)|;
      assert HashOf(value, alphabet) == HashOf(q, alphabet) + [alphabet[value % L]];
      var P := Pow(L, e - 1);
      assert Pow(L, e) == L * P;
      var bound := if q < L then 1 else q;
      MulLeft(L, P, bound);
      MulLeft(L, bound, q);
    }
  }

  /** `unhash(hash(v, a), a) == Some(v)` for a duplicate-free alphabet of at least two digits. */
  lemma UnhashHash(value: u64, alphabet: seq<byte>)
    requires |alphabet| >= 2 && NoDup(alphabet)
    ensures Unhash(HashOf(value, alphabet), alphabet) == Some(value)
  {
    HornerHash(value, alphabet);
    HashLengthBound(value, alphabet);
    UnhashIsValue(HashOf(value, alphabet), alphabet);
  }

  // ---------------------------------------------------------------------
  // The unchecked addition of `unhash`

  /**
   * The as-written fold adds up the shifted digits whenever every power and
   * every product passes its check, whether or not the sum fits in `u64`.
   */
  lemma {:induction false} UnhashPrefixAsWrittenSum(input: seq<byte>, alphabet: seq<byte>, n: nat)
    requires n <= |input|
    requires forall i :: 0 <= i < |input| ==> Term(input, alphabet, i).Some?
    ensures UnhashPrefixAsWritten(input, alphabet, n) == Some(Horner(input[..n], alphabet) * Pow(|alphabet|, |input| - n))
    decreases n
  {
    if n == 0 {
      assert input[..0] == [];
    } else {
      UnhashPrefixAsWrittenSum(input, alphabet, n - 1);
      TermSome(input, alphabet, n - 1);
      HornerShift(input, alphabet, n, |input| - n);
    }
  }

  /** One digit `alphabet[d]` followed by `k` copies of the largest digit. */
  function TopRun(alphabet: seq<byte>, d: nat, k: nat): (r: seq<byte>)
    requires d < |alphabet|
    ensures |r| == k + 1 && r[0] == alphabet[d]
    ensures forall i :: 1 <= i <= k ==> r[i] == alphabet[|alphabet| - 1]
  {
    [alphabet[d]] + seq(k, _ => alphabet[|alphabet| - 1])
  }

  /** Such a run reads as `(d + 1) * L^k - 1`. */
  lemma {:induction false} HornerTopRun(alphabet: seq<byte>, d: nat, k: nat)
    requires NoDup(alphabet) && d < |alphabet|
    ensures Horner(TopRun(alphabet, d, k), alphabet) == (d + 1) * Pow(|alphabet|, k) - 1
    decreases k
  {
    var L := |alphabet|;
    var r := TopRun(alphabet, d, k);
    if k == 0 {
      DigitDistinct(alphabet, d);
      assert r[..0] == [];
    } else {
      HornerTopRun(alphabet, d, k - 1);
      DigitDistinct(alphabet, L - 1);
      HornerSnoc(r, alphabet, k);
      assert r[..k + 1] == r;
      assert r[..k] == TopRun(alphabet, d, k - 1);
      var P := Pow(L, k - 1);
      PowPositive(L, k - 1);
      assert Pow(L, k) == L * P;
      TopRunStep(d + 1, L, P);
    }
  }

  lemma TopRunStep(c: nat, L: nat, P: nat)
    requires c >= 1 && P >= 1
    ensures (c * P - 1) * L + (L - 1) == c * (L * P) - 1
  {
    assert (c * P - 1) * L == c * P * L - L;
  }

  /**
   * For any duplicate-free alphabet of 44 bytes (the size of every alphabet
   * built from the default alphabet and separators), the 12-digit segment
   * `alphabet[15]` followed by eleven `alphabet[43]` passes every
   * `checked_pow` and `checked_mul` of `unhash`, yet its value,
   * 16 * 44^11 - 1, does not fit in `u64`: the unchecked addition overflows.
   * A release build accepts the segment with a wrapped value; the corrected
   * fold rejects it.
   */
  lemma UnhashAsWrittenOverflows(alphabet: seq<byte>)
    requires |alphabet| == 44 && NoDup(alphabet)
    ensures UnhashAsWritten(TopRun(alphabet, 15, 11), alphabet).Some?
    ensures UnhashAsWritten(TopRun(alphabet, 15, 11), alphabet).value >= U64_MODULUS
    ensures Unhash(TopRun(alphabet, 15, 11), alphabet) == None
    ensures UnhashWrapping(TopRun(alphabet, 15, 11), alphabet).Some?
  {
    var input := TopRun(alphabet, 15, 11);
    assert Pow(44, 10) == 27197360938418176;
    assert Pow(44, 11) == 1196683881290399744;
    forall i | 0 <= i < |input|
      ensures Term(input, alphabet, i).Some?
    {
      assert input[i] in alphabet;
      if i == 0 {
        DigitDistinct(alphabet, 15);
      } else {
        DigitDistinct(alphabet, 43);
        PowMonotone(44, 11 - i, 10);
        MulLeft(43, Pow(44, 11 - i), Pow(44, 10));
      }
      TermFits(input, alphabet, i);
    }
    UnhashPrefixAsWrittenSum(input, alphabet, |input|);
    assert input[..|input|] == input;
    HornerTopRun(alphabet, 15, 11);
    UnhashOverflow(input, alphabet);
    UnhashFoldsAgree(input, alphabet, |input|);
  }

  /**
   * The three folds of `unhash` fail on the same inputs. Where they do not,
   * the wrapping fold is the unbounded sum modulo 2^64, and the checked
   * fold is the sum itself when it fits in `u64` and `None` when it does not.
   */
  lemma {:induction false} UnhashFoldsAgree(input: seq<byte>, alphabet: seq<byte>, n: nat)
    requires n <= |input|
    ensures match UnhashPrefixAsWritten(input, alphabet, n)
            case None =>
              UnhashPrefix(input, alphabet, n) == None && UnhashPrefixWrapping(input, alphabet, n) == None
            case Some(x) =>
              x >= 0 && UnhashPrefixWrapping(input, alphabet, n) == Some(x % U64_MODULUS)
              && UnhashPrefix(input, alphabet, n) == if x < U64_MODULUS then Some(x) else None
    decreases n
  {
    if n > 0 {
      UnhashFoldsAgree(input, alphabet, n - 1);
      match UnhashPrefixAsWritten(input, alphabet, n - 1)
      case None =>
      case Some(a) =>
        match Term(input, alphabet, n - 1)
        case None =>
        case Some(c) => AddMod(a, c);
    }
  }

  // ---------------------------------------------------------------------
  // encode

  /**
   * The alphabet for the next value: the current one shuffled with the
   * first |alphabet| bytes of lottery, salt and current alphabet.
   */
  function NextAlphabet(alphabet: seq<byte>, lottery: byte, salt: seq<byte>): (r: seq<byte>)
    ensures |r| == |alphabet|
  {
    Shuffled(alphabet, ([lottery] + salt + alphabet)[..|alphabet|])
  }

  /** The alphabet after `n` values: `n` turns of `NextAlphabet`. */
  function Reshuffled(alphabet: seq<byte>, lottery: byte, salt: seq<byte>, n: nat): (r: seq<byte>)
    ensures |r| == |alphabet|
  {
    if n == 0 then alphabet
    else NextAlphabet(Reshuffled(alphabet, lottery, salt, n - 1), lottery, salt)
  }

  /** One more turn of the reshuffle. */
  lemma ReshuffledNext(alphabet: seq<byte>, lottery: byte, salt: seq<byte>, n: nat)
    ensures Reshuffled(alphabet, lottery, salt, n + 1) == NextAlphabet(Reshuffled(alphabet, lottery, salt, n), lottery, salt)
  {
  }

  /** Every reshuffle is a permutation of the alphabet. */
  lemma {:induction false} ReshuffledPermutes(alphabet: seq<byte>, lottery: byte, salt: seq<byte>, n: nat)
    ensures multiset(Reshuffled(alphabet, lottery, salt, n)) == multiset(alphabet)
  {
    if n > 0 {
      ReshuffledPermutes(alphabet, lottery, salt, n - 1);
    }
  }

  /** Two sequences with the same multiset have the same bytes. */
  lemma SameMembers(s: seq<byte>, t: seq<byte>, x: byte)
    requires multiset(s) == multiset(t)
    ensures x in s <==> x in t
  {
    assert x in s <==> x in multiset(s);
    assert x in t <==> x in multiset(t);
  }

  /** A reshuffled alphabet holds the same bytes, without duplicates if the original had none. */
  lemma ReshuffledAlphabet(alphabet: seq<byte>, lottery: byte, salt: seq<byte>, n: nat)
    ensures Within(Reshuffled(alphabet, lottery, salt, n), alphabet)
    ensures Within(alphabet, Reshuffled(alphabet, lottery, salt, n))
    ensures NoDup(alphabet) ==> NoDup(Reshuffled(alphabet, lottery, salt, n))
  {
    var r := Reshuffled(alphabet, lottery, salt, n);
    ReshuffledPermutes(alphabet, lottery, salt, n);
    forall x | x in r ensures x in alphabet {
      SameMembers(r, alphabet, x);
    }
    forall x | x in alphabet ensures x in r {
      SameMembers(r, alphabet, x);
    }
    if NoDup(alphabet) {
      NoDupPermutation(alphabet, r);
    }
  }

  /** The lottery byte: the alphabet's digit at the checksum modulo its length. */
  function Lottery(h: Harsh, values: seq<u64>): byte
    requires |h.alphabet| >= 1
  {
    h.alphabet[NHash(values) % |h.alphabet|]
  }

  /**
   * What value `k` contributes: its hash over the alphabet reshuffled `k + 1`
   * times and, unless it is the last value, one separator chosen by the
   * value modulo the hash's first byte plus `k`.
   */
  function Piece(h: Harsh, values: seq<u64>, lottery: byte, k: nat): (r: seq<byte>)
    requires CanEncode(h, values) && k < |values|
    ensures |r| >= 1
  {
    var a := Reshuffled(h.alphabet, lottery, h.salt, k + 1);
    var last := HashOf(values[k], a);
    if k + 1 < |values| then
      ReshuffledAlphabet(h.alphabet, lottery, h.salt, k + 1);
      assert last[0] in h.alphabet;
      last + [h.separators[(values[k] % (last[0] + k)) % |h.separators|]]
    else last
  }

  /** The pieces of values `k` onwards, in order. */
  function Pieces(h: Harsh, values: seq<u64>, lottery: byte, k: nat): (r: seq<byte>)
    requires CanEncode(h, values) && k <= |values|
    ensures k < |values| ==> |r| >= 1
    decreases |values| - k
  {
    if k == |values| then [] else Piece(h, values, lottery, k) + Pieces(h, values, lottery, k + 1)
  }

  /** The unpadded hashid: the lottery byte, then every value's piece. */
  function Body(h: Harsh, values: seq<u64>): (r: seq<byte>)
    requires CanEncode(h, values) && |values| > 0
    ensures |r| >= 2 && r[0] == h.alphabet[NHash(values) % |h.alphabet|]
  {
    [Lottery(h, values)] + Pieces(h, values, Lottery(h, values), 0)
  }

  /**
   * A buffer shorter than the minimum length gets a guard at the front and,
   * if still short, one at the back; each guard is chosen by the checksum
   * plus a byte of the buffer.
   */
  function Guarded(h: Harsh, nhash: nat, buffer: seq<byte>): (r: seq<byte>)
    requires |buffer| >= 2 && (|buffer| < h.hashLength ==> |h.guards| > 0)
  {
    if |buffer| >= h.hashLength then buffer
    else
      var front := [h.guards[(nhash + buffer[0]) % |h.guards|]] + buffer;
      if |front| >= h.hashLength then front
      else front + [h.guards[(nhash + front[2]) % |h.guards|]]
  }

  /**
   * One padding round on the freshly shuffled alphabet `a`: the buffer
   * wrapped in the second and first halves of `a`, cut down to its middle
   * `length` bytes when that is too long.
   */
  function WrapRound(a: seq<byte>, buffer: seq<byte>, length: nat): (r: seq<byte>)
  {
    var half := |a| / 2;
    var b := a[half..] + buffer + a[..half];
    var excess := |b| - length;
    if excess > 0 then b[excess / 2..excess / 2 + length] else b
  }

  /**
   * The padding loop: while the buffer is shorter than `length`, shuffle the
   * alphabet with itself and wrap the buffer in it.
   */
  function Wrapped(alphabet: seq<byte>, buffer: seq<byte>, length: nat): (r: seq<byte>)
    requires |alphabet| >= 1
    ensures |r| >= |buffer| && |r| >= length
    decreases length - |buffer|
  {
    if |buffer| >= length then buffer
    else
      var a := Shuffled(alphabet, alphabet);
      Wrapped(a, WrapRound(a, buffer, length), length)
  }

  /** `encode`: the hashid of `values` behind this configuration. */
  function Encoded(h: Harsh, values: seq<u64>): (r: seq<byte>)
    requires CanEncode(h, values)
    ensures r == [] <==> values == []
  {
    if |values| == 0 then []
    else
      var lottery := Lottery(h, values);
      Wrapped(Reshuffled(h.alphabet, lottery, h.salt, |values|), Guarded(h, NHash(values), Body(h, values)), h.hashLength)
  }

  /**
   * `encode`: one array holds the alphabet, re-shuffled in place once per
   * value and once per padding round; the buffer grows piece by piece.
   */
  method Encode(h: Harsh, values: seq<u64>) returns (r: seq<byte>)
    requires CanEncode(h, values)
    ensures r == Encoded(h, values)
  {
    if |values| == 0 {
      return [];
    }
    var nhash := NHash(values);
    var alphabet := new byte[|h.alphabet|](i requires 0 <= i < |h.alphabet| => h.alphabet[i]);
    assert alphabet[..] == h.alphabet;
    var lottery := alphabet[nhash % alphabet.Length];
    var buffer := PushPieces(h, values, alphabet, lottery);
    buffer := AddGuards(h, nhash, buffer);
    r := Pad(alphabet, buffer, h.hashLength);
  }

  /** The guard step of `encode`: one guard in front of a short buffer and, if still short, one behind. */
  method AddGuards(h: Harsh, nhash: nat, buffer: seq<byte>) returns (r: seq<byte>)
    requires |buffer| >= 2 && (|buffer| < h.hashLength ==> |h.guards| > 0)
    ensures r == Guarded(h, nhash, buffer)
  {
    r := buffer;
    if |r| < h.hashLength {
      var guardIndex := (nhash + r[0]) % |h.guards|;
      r := [h.guards[guardIndex]] + r;
      if |r| < h.hashLength {
        guardIndex := (nhash + r[2]) % |h.guards|;
        r := r + [h.guards[guardIndex]];
      }
    }
  }

  /**
   * The loop of `encode` over the values: the lottery byte, then each
   * value's piece; the alphabet is reshuffled in place before each value.
   */
  method PushPieces(h: Harsh, values: seq<u64>, alphabet: array<byte>, lottery: byte) returns (buffer: seq<byte>)
    requires CanEncode(h, values) && |values| > 0
    requires alphabet[..] == h.alphabet && lottery == Lottery(h, values)
    modifies alphabet
    ensures alphabet[..] == Reshuffled(h.alphabet, lottery, h.salt, |values|)
    ensures buffer == Body(h, values)
  {
    buffer := [lottery];
    var idx := 0;
    while idx < |values|
      invariant 0 <= idx <= |values|
      invariant alphabet[..] == Reshuffled(h.alphabet, lottery, h.salt, idx)
      invariant buffer + Pieces(h, values, lottery, idx) == Body(h, values)
    {
      ghost var start := buffer;
      NextShuffle(alphabet, lottery, h.salt);
      buffer := PushValue(h, values, lottery, idx, alphabet[..], buffer);
      PushStep(h, values, lottery, idx, start, buffer);
      idx := idx + 1;
    }
  }

  /**
   * One turn of the value loop once the alphabet is reshuffled: the value's
   * hash and, unless it is the last value, its separator.
   */
  method PushValue(h: Harsh, values: seq<u64>, lottery: byte, idx: nat, alphabet: seq<byte>, buffer: seq<byte>) returns (r: seq<byte>)
    requires CanEncode(h, values) && idx < |values|
    requires alphabet == Reshuffled(h.alphabet, lottery, h.salt, idx + 1)
    ensures r == buffer + Piece(h, values, lottery, idx)
  {
    var value := values[idx];
    var last := Hash(value, alphabet);
    PieceIs(h, values, lottery, idx, alphabet, last);
    r := buffer + last;
    if idx + 1 < |values| {
      value := value % (last[0] + idx);
      r := r + [h.separators[value % |h.separators|]];
    }
  }

  /** Appending piece `k` to a buffer that lacks pieces `k` onwards leaves it lacking pieces `k + 1` onwards. */
  lemma PushStep(h: Harsh, values: seq<u64>, lottery: byte, k: nat, start: seq<byte>, next: seq<byte>)
    requires CanEncode(h, values) && k < |values|
    requires start + Pieces(h, values, lottery, k) == Body(h, values)
    requires next == start + Piece(h, values, lottery, k)
    ensures next + Pieces(h, values, lottery, k + 1) == Body(h, values)
  {
    PiecesUnfold(h, values, lottery, k);
    AppendAssoc(start, Piece(h, values, lottery, k), Pieces(h, values, lottery, k + 1));
  }

  lemma PiecesUnfold(h: Harsh, values: seq<u64>, lottery: byte, k: nat)
    requires CanEncode(h, values) && k < |values|
    ensures Pieces(h, values, lottery, k) == Piece(h, values, lottery, k) + Pieces(h, values, lottery, k + 1)
  {
  }

  lemma AppendAssoc(a: seq<byte>, b: seq<byte>, c: seq<byte>)
    ensures a + (b + c) == (a + b) + c
  {
  }

  /** The in-place shuffle that starts each value's turn in `encode` and `decode`. */
  method NextShuffle(alphabet: array<byte>, lottery: byte, salt: seq<byte>)
    modifies alphabet
    ensures alphabet[..] == NextAlphabet(old(alphabet[..]), lottery, salt)
  {
    var temp := [lottery] + salt + alphabet[..];
    var alphabetLen := alphabet.Length;
    Shuffle.Shuffle(alphabet, temp[..alphabetLen]);
  }

  /** Piece `k` from the alphabet and the hash the loop computed for it. */
  lemma PieceIs(h: Harsh, values: seq<u64>, lottery: byte, k: nat, a: seq<byte>, last: seq<byte>)
    requires CanEncode(h, values) && k < |values|
    requires a == Reshuffled(h.alphabet, lottery, h.salt, k + 1) && last == HashOf(values[k], a)
    ensures k + 1 < |values| ==> last[0] + k > 0
    ensures Piece(h, values, lottery, k) ==
              if k + 1 < |values| then last + [h.separators[(values[k] % (last[0] + k)) % |h.separators|]]
              else last
  {
    ReshuffledAlphabet(h.alphabet, lottery, h.salt, k + 1);
    assert last[0] in h.alphabet;
  }

  /** The padding loop of `encode`, on the alphabet array left by the value loop. */
  method Pad(alphabet: array<byte>, buffer: seq<byte>, length: nat) returns (r: seq<byte>)
    requires alphabet.Length >= 1
    modifies alphabet
    ensures r == Wrapped(old(alphabet[..]), buffer, length)
  {
    r := buffer;
    var halfLength := alphabet.Length / 2;
    while |r| < length
      invariant Wrapped(alphabet[..], r, length) == Wrapped(old(alphabet[..]), buffer, length)
      decreases length - |r|
    {
      ghost var before := r;
      var alphabetCopy := alphabet[..];
      Shuffle.Shuffle(alphabet, alphabetCopy);
      r := WrapBuffer(alphabet, halfLength, r, length);
      PadStep(alphabetCopy, before, length);
    }
  }

  /** One padding round on the reshuffled alphabet array. */
  method WrapBuffer(alphabet: array<byte>, halfLength: nat, buffer: seq<byte>, length: nat) returns (r: seq<byte>)
    requires halfLength == alphabet.Length / 2
    ensures r == WrapRound(alphabet[..], buffer, length)
  {
    r := alphabet[halfLength..] + buffer + alphabet[..halfLength];
    var excess := |r| - length;
    if excess > 0 {
      var marker := excess / 2;
      r := r[marker..marker + length];
    }
  }

  /** A padding round of a short buffer is one turn of `Wrapped`. */
  lemma PadStep(alphabet: seq<byte>, buffer: seq<byte>, length: nat)
    requires |alphabet| >= 1 && |buffer| < length
    ensures Wrapped(Shuffled(alphabet, alphabet), WrapRound(Shuffled(alphabet, alphabet), buffer, length), length)
            == Wrapped(alphabet, buffer, length)
  {
  }

  // ---------------------------------------------------------------------
  // decode

  /**
   * The input with everything up to and including its first guard cut
   * away, then everything from the last guard left on.
   */
  function StripGuards(h: Harsh, input: seq<byte>): (r: seq<byte>)
    ensures |r| <= |input|
  {
    var front := match FirstIn(input, h.guards) case Some(g) => input[g + 1..] case None => input;
    match LastIn(front, h.guards)
    case Some(g) => front[..g]
    case None => front
  }

  /** The alphabets of the first `n` values: value `k` uses the alphabet reshuffled `k + 1` times. */
  function Alphabets(h: Harsh, lottery: byte, n: nat): (r: seq<seq<byte>>)
    ensures |r| == n
  {
    seq(n, k requires 0 <= k < n => Reshuffled(h.alphabet, lottery, h.salt, k + 1))
  }

  /** `unhash` of each of the first `k` segments over its alphabet; `None` as soon as one fails. */
  function UnhashFirst(alphabets: seq<seq<byte>>, segments: seq<seq<byte>>, k: nat): (r: Option<seq<u64>>)
    requires k <= |segments| && k <= |alphabets|
    ensures r.Some? ==> |r.value| == k
  {
    if k == 0 then Some([])
    else match UnhashFirst(alphabets, segments, k - 1)
      case None => None
      case Some(xs) =>
        match Unhash(segments[k - 1], alphabets[k - 1])
        case None => None
        case Some(x) => Some(xs + [x])
  }

  /**
   * `decode`: strip the guards, take the lottery byte, split the rest at
   * separators and unhash each segment; the values are returned only if
   * they encode back to the very input.
   */
  function Decoded(h: Harsh, input: seq<byte>): (r: Result<seq<u64>, Error>)
    requires Encodable(h)
    ensures r.Ok? ==> Encoded(h, r.value) == input
    ensures |input| < 2 ==> r == Err(Error.Decode(DecodeError.Hash))
  {
    var value := StripGuards(h, input);
    if |value| < 2 then Err(Error.Decode(DecodeError.Hash))
    else
      var segments := Split(value[1..], h.separators);
      match UnhashFirst(Alphabets(h, value[0], |segments|), segments, |segments|)
      case None => Err(Error.Decode(DecodeError.Value))
      case Some(result) => if Encoded(h, result) == input then Ok(result) else Err(Error.Decode(DecodeError.Hash))
  }

  /** `decode`, with the alphabet reshuffled in place before each segment. */
  method Decode(h: Harsh, input: seq<byte>) returns (r: Result<seq<u64>, Error>)
    requires Encodable(h)
    ensures r == Decoded(h, input)
  {
    var value := StripGuards(h, input);
    if |value| < 2 {
      return Err(Error.Decode(DecodeError.Hash));
    }
    var alphabet := new byte[|h.alphabet|](i requires 0 <= i < |h.alphabet| => h.alphabet[i]);
    assert alphabet[..] == h.alphabet;
    var lottery := value[0];
    var segments := Split(value[1..], h.separators);
    var result := UnhashSegments(h, lottery, segments, alphabet);
    match result
    case None =>
      r := Err(Error.Decode(DecodeError.Value));
    case Some(values) =>
      var encoded := Encode(h, values);
      r := if encoded == input then Ok(values) else Err(Error.Decode(DecodeError.Hash));
  }

  /** The segment loop of `decode`; like `collect` into an `Option`, it stops at the first failure. */
  method UnhashSegments(h: Harsh, lottery: byte, segments: seq<seq<byte>>, alphabet: array<byte>) returns (result: Option<seq<u64>>)
    requires alphabet[..] == h.alphabet
    modifies alphabet
    ensures result == UnhashFirst(Alphabets(h, lottery, |segments|), segments, |segments|)
  {
    ghost var alphabets := Alphabets(h, lottery, |segments|);
    var values: seq<u64> := [];
    var k := 0;
    while k < |segments|
      invariant 0 <= k <= |segments|
      invariant alphabet[..] == Reshuffled(h.alphabet, lottery, h.salt, k)
      invariant UnhashFirst(alphabets, segments, k) == Some(values)
    {
      NextShuffle(alphabet, lottery, h.salt);
      ReshuffledNext(h.alphabet, lottery, h.salt, k);
      assert alphabet[..] == alphabets[k];
      var x := Unhash(segments[k], alphabet[..]);
      UnhashFirstStep(alphabets, segments, k, values);
      if x.None? {
        UnhashFirstNone(alphabets, segments, k + 1);
        return None;
      }
      values := values + [x.value];
      k := k + 1;
    }
    return Some(values);
  }

  /** One more segment: its value is appended, or the fold fails with it. */
  lemma UnhashFirstStep(alphabets: seq<seq<byte>>, segments: seq<seq<byte>>, k: nat, values: seq<u64>)
    requires k < |segments| && k < |alphabets| && UnhashFirst(alphabets, segments, k) == Some(values)
    ensures var x := Unhash(segments[k], alphabets[k]);
            UnhashFirst(alphabets, segments, k + 1) == if x.Some? then Some(values + [x.value]) else None
  {
  }

  /** Once a segment fails, the whole fold fails. */
  lemma {:induction false} UnhashFirstNone(alphabets: seq<seq<byte>>, segments: seq<seq<byte>>, k: nat)
    requires k <= |segments| <= |alphabets| && UnhashFirst(alphabets, segments, k).None?
    ensures UnhashFirst(alphabets, segments, |segments|).None?
    decreases |segments| - k
  {
    if k < |segments| {
      UnhashFirstNone(alphabets, segments, k + 1);
    }
  }

  // ---------------------------------------------------------------------
  // The round trip

  /** The hash of every value, value `k` over the alphabet reshuffled `k + 1` times. */
  function Hashes(h: Harsh, values: seq<u64>, lottery: byte): (r: seq<seq<byte>>)
    requires |h.alphabet| >= 2
    ensures |r| == |values|
  {
    seq(|values|, k requires 0 <= k < |values| => HashOf(values[k], Reshuffled(h.alphabet, lottery, h.salt, k + 1)))
  }

  /** A hash over a reshuffled alphabet is drawn from the alphabet. */
  lemma HashWithin(h: Harsh, values: seq<u64>, lottery: byte, k: nat)
    requires |h.alphabet| >= 2 && k < |values|
    ensures Within(Hashes(h, values, lottery)[k], h.alphabet)
  {
    var a := Reshuffled(h.alphabet, lottery, h.salt, k + 1);
    ReshuffledAlphabet(h.alphabet, lottery, h.salt, k + 1);
    WithinTrans(HashOf(values[k], a), a, h.alphabet);
  }

  /** Piece `k` is the hash of value `k`, followed by a separator unless it is the last. */
  lemma PieceShape(h: Harsh, values: seq<u64>, lottery: byte, k: nat)
    requires Encodable(h) && k < |values|
    ensures k + 1 == |values| ==> Piece(h, values, lottery, k) == Hashes(h, values, lottery)[k]
    ensures k + 1 < |values| ==>
              exists sep :: sep in h.separators && Piece(h, values, lottery, k) == Hashes(h, values, lottery)[k] + [sep]
  {
    if k + 1 < |values| {
      var last := Hashes(h, values, lottery)[k];
      var p := Piece(h, values, lottery, k);
      var sep := p[|p| - 1];
      assert p == last + [sep];
    }
  }

  /** No piece holds a guard. */
  lemma {:induction false} PiecesAvoidGuards(h: Harsh, values: seq<u64>, lottery: byte, k: nat)
    requires WellFormed(h) && k <= |values|
    ensures Disjoint(Pieces(h, values, lottery, k), h.guards)
    decreases |values| - k
  {
    if k < |values| {
      PiecesAvoidGuards(h, values, lottery, k + 1);
      var hk := Hashes(h, values, lottery)[k];
      HashWithin(h, values, lottery, k);
      WithinDisjoint(hk, h.alphabet, h.guards);
      PieceShape(h, values, lottery, k);
      PiecesUnfold(h, values, lottery, k);
      if k + 1 < |values| {
        var sep :| sep in h.separators && Piece(h, values, lottery, k) == hk + [sep];
        DisjointConcat(hk, [sep], h.guards);
      }
      DisjointConcat(Piece(h, values, lottery, k), Pieces(h, values, lottery, k + 1), h.guards);
    }
  }

  /** The last value's pieces are its hash alone. */
  lemma PiecesLast(h: Harsh, values: seq<u64>, lottery: byte, k: nat)
    requires Encodable(h) && k + 1 == |values|
    ensures Pieces(h, values, lottery, k) == Hashes(h, values, lottery)[k]
  {
    PieceShape(h, values, lottery, k);
    PiecesUnfold(h, values, lottery, k);
    assert Pieces(h, values, lottery, k + 1) == [];
  }

  /** Any earlier value's pieces are its hash, a separator and the later pieces. */
  lemma PiecesNext(h: Harsh, values: seq<u64>, lottery: byte, k: nat) returns (sep: byte)
    requires Encodable(h) && k + 1 < |values|
    ensures sep in h.separators
    ensures Pieces(h, values, lottery, k) == Hashes(h, values, lottery)[k] + [sep] + Pieces(h, values, lottery, k + 1)
  {
    PieceShape(h, values, lottery, k);
    PiecesUnfold(h, values, lottery, k);
    sep :| sep in h.separators && Piece(h, values, lottery, k) == Hashes(h, values, lottery)[k] + [sep];
  }

  /** A suffix of a sequence of segments is its first segment and the rest. */
  lemma SuffixCons(s: seq<seq<byte>>, k: nat)
    requires k < |s|
    ensures s[k..] == [s[k]] + s[k + 1..]
  {
  }

  /** Splitting the pieces from `k` on at separators gives the hashes from `k` on. */
  lemma {:induction false} SplitPieces(h: Harsh, values: seq<u64>, lottery: byte, k: nat)
    requires WellFormed(h) && k < |values|
    ensures Split(Pieces(h, values, lottery, k), h.separators) == Hashes(h, values, lottery)[k..]
    decreases |values| - k
  {
    var hs := Hashes(h, values, lottery);
    HashWithin(h, values, lottery, k);
    WithinDisjoint(hs[k], h.alphabet, h.separators);
    SuffixCons(hs, k);
    if k + 1 == |values| {
      PiecesLast(h, values, lottery, k);
      SplitNone(hs[k], h.separators);
    } else {
      var sep := PiecesNext(h, values, lottery, k);
      SplitAt(hs[k], sep, Pieces(h, values, lottery, k + 1), h.separators);
      SplitPieces(h, values, lottery, k + 1);
    }
  }

  /** Each hash unhashes, over its own alphabet, to its value. */
  lemma UnhashHashAt(h: Harsh, values: seq<u64>, lottery: byte, k: nat)
    requires WellFormed(h) && k < |values|
    ensures Unhash(Hashes(h, values, lottery)[k], Reshuffled(h.alphabet, lottery, h.salt, k + 1)) == Some(values[k])
  {
    var a := Reshuffled(h.alphabet, lottery, h.salt, k + 1);
    ReshuffledAlphabet(h.alphabet, lottery, h.salt, k + 1);
    UnhashHash(values[k], a);
  }

  /** When every segment unhashes, the fold collects their values in order. */
  lemma {:induction false} UnhashFirstAll(alphabets: seq<seq<byte>>, segments: seq<seq<byte>>, values: seq<u64>, k: nat)
    requires k <= |segments| == |values| <= |alphabets|
    requires forall j :: 0 <= j < k ==> Unhash(segments[j], alphabets[j]) == Some(values[j])
    ensures UnhashFirst(alphabets, segments, k) == Some(values[..k])
  {
    if k > 0 {
      UnhashFirstAll(alphabets, segments, values, k - 1);
      UnhashFirstStep(alphabets, segments, k - 1, values[..k - 1]);
      assert values[..k - 1] + [values[k - 1]] == values[..k];
    }
  }

  /** Every hash unhashes, over its own alphabet, to its value. */
  lemma UnhashEachHash(h: Harsh, values: seq<u64>, lottery: byte)
    requires WellFormed(h)
    ensures forall j :: 0 <= j < |values| ==>
              Unhash(Hashes(h, values, lottery)[j], Alphabets(h, lottery, |values|)[j]) == Some(values[j])
  {
    forall j | 0 <= j < |values|
      ensures Unhash(Hashes(h, values, lottery)[j], Alphabets(h, lottery, |values|)[j]) == Some(values[j])
    {
      UnhashHashAt(h, values, lottery, j);
    }
  }

  /** Unhashing all the hashes gives the values back. */
  lemma UnhashHashes(h: Harsh, values: seq<u64>, lottery: byte)
    requires WellFormed(h)
    ensures UnhashFirst(Alphabets(h, lottery, |values|), Hashes(h, values, lottery), |values|) == Some(values)
  {
    UnhashEachHash(h, values, lottery);
    UnhashFirstAll(Alphabets(h, lottery, |values|), Hashes(h, values, lottery), values, |values|);
    assert values[..|values|] == values;
  }

  // ---------------------------------------------------------------------
  // The shape of a padded hashid

  /**
   * A padding round of a short buffer keeps the buffer whole and surrounds
   * it with alphabet bytes; the result is longer than the buffer and never
   * longer than `length`.
   */
  lemma WrapRoundShape(a: seq<byte>, buffer: seq<byte>, length: nat) returns (pre: seq<byte>, post: seq<byte>)
    requires |a| >= 1 && |buffer| < length
    ensures WrapRound(a, buffer, length) == pre + buffer + post
    ensures Within(pre, a) && Within(post, a)
    ensures |buffer| < |WrapRound(a, buffer, length)| <= length
  {
    var half := |a| / 2;
    var x, y := a[half..], a[..half];
    var excess := |x + buffer + y| - length;
    SliceWithin(a, half, |a|);
    SliceWithin(a, 0, half);
    if excess > 0 {
      var marker := excess / 2;
      var e := marker + length;
      SliceAround(x, buffer, y, marker, e);
      pre, post := x[marker..], y[..e - |x| - |buffer|];
      SliceWithin(x, marker, |x|);
      SliceWithin(y, 0, e - |x| - |buffer|);
    } else {
      pre, post := x, y;
    }
  }

  /** The padding loop wraps a buffer in alphabet bytes and leaves it whole. */
  lemma {:induction false} WrappedShape(alphabet: seq<byte>, buffer: seq<byte>, length: nat) returns (pre: seq<byte>, post: seq<byte>)
    requires |alphabet| >= 1
    ensures Wrapped(alphabet, buffer, length) == pre + buffer + post
    ensures Within(pre, alphabet) && Within(post, alphabet)
    decreases length - |buffer|
  {
    if |buffer| >= length {
      pre, post := [], [];
    } else {
      var a := Shuffled(alphabet, alphabet);
      var round := WrapRound(a, buffer, length);
      PadStep(alphabet, buffer, length);
      var pre1, post1 := WrapRoundShape(a, buffer, length);
      var pre2, post2 := WrappedShape(a, round, length);
      ShuffledSelf(alphabet);
      pre, post := NestShape(a, alphabet, pre2, pre1, buffer, post1, post2);
    }
  }

  /** Shuffling the alphabet with itself keeps its bytes. */
  lemma ShuffledSelf(alphabet: seq<byte>)
    ensures Within(Shuffled(alphabet, alphabet), alphabet)
  {
    forall x | x in Shuffled(alphabet, alphabet) ensures x in alphabet {
      ShuffledMembers(alphabet, alphabet, x);
    }
  }

  /** Two layers of padding around a buffer make one layer. */
  lemma NestShape(a: seq<byte>, alphabet: seq<byte>, pre2: seq<byte>, pre1: seq<byte>, buffer: seq<byte>, post1: seq<byte>, post2: seq<byte>)
    returns (pre: seq<byte>, post: seq<byte>)
    requires Within(a, alphabet)
    requires Within(pre1, a) && Within(post1, a) && Within(pre2, a) && Within(post2, a)
    ensures pre2 + (pre1 + buffer + post1) + post2 == pre + buffer + post
    ensures Within(pre, alphabet) && Within(post, alphabet)
  {
    pre, post := pre2 + pre1, post1 + post2;
    WithinConcat(pre2, pre1, a);
    WithinConcat(post1, post2, a);
    WithinTrans(pre, a, alphabet);
    WithinTrans(post, a, alphabet);
  }

  /** The padding loop stops at exactly `length` bytes when it starts below. */
  lemma {:induction false} WrappedLength(alphabet: seq<byte>, buffer: seq<byte>, length: nat)
    requires |alphabet| >= 1
    ensures |buffer| >= length ==> Wrapped(alphabet, buffer, length) == buffer
    ensures |buffer| <= length ==> |Wrapped(alphabet, buffer, length)| == length
    decreases length - |buffer|
  {
    if |buffer| < length {
      var a := Shuffled(alphabet, alphabet);
      var _, _ := WrapRoundShape(a, buffer, length);
      WrappedLength(a, WrapRound(a, buffer, length), length);
    }
  }

  // ---------------------------------------------------------------------
  // Guards come off

  /** A hashid without guards is left as it is. */
  lemma StripPlain(h: Harsh, body: seq<byte>)
    requires Disjoint(body, h.guards)
    ensures StripGuards(h, body) == body
  {
  }

  /** A single guard in front comes off with nothing else. */
  lemma StripFront(h: Harsh, g: byte, body: seq<byte>)
    requires g in h.guards && Disjoint(body, h.guards)
    ensures StripGuards(h, [g] + body) == body
  {
    var s := [g] + body;
    assert s[..0] == [];
    FirstInAt(s, h.guards, 0);
    assert s[1..] == body;
  }

  /** Padding around a guarded body comes off with both guards. */
  lemma StripBoth(h: Harsh, pre: seq<byte>, g1: byte, body: seq<byte>, g2: byte, post: seq<byte>, input: seq<byte>)
    requires g1 in h.guards && g2 in h.guards
    requires Disjoint(pre, h.guards) && Disjoint(body, h.guards) && Disjoint(post, h.guards)
    requires input == pre + ([g1] + body + [g2]) + post
    ensures StripGuards(h, input) == body
  {
    var front := body + [g2] + post;
    FirstGuard(h, pre, g1, front, input);
    LastGuard(h, body, g2, post, front);
  }

  /** The first guard of the input is the one after the leading padding. */
  lemma FirstGuard(h: Harsh, pre: seq<byte>, g: byte, rest: seq<byte>, input: seq<byte>)
    requires g in h.guards && Disjoint(pre, h.guards)
    requires input == pre + [g] + rest
    ensures FirstIn(input, h.guards) == Some(|pre|)
    ensures input[|pre| + 1..] == rest
  {
    assert input[..|pre|] == pre;
    FirstInAt(input, h.guards, |pre|);
  }

  /** The last guard of what follows the first is the one before the trailing padding. */
  lemma LastGuard(h: Harsh, body: seq<byte>, g: byte, post: seq<byte>, front: seq<byte>)
    requires g in h.guards && Disjoint(post, h.guards)
    requires front == body + [g] + post
    ensures LastIn(front, h.guards) == Some(|body|)
    ensures front[..|body|] == body
  {
    assert front[|body| + 1..] == post;
    LastInAt(front, h.guards, |body|);
  }

  /** The guard step leaves the buffer, adds a front guard, or adds a guard at each end. */
  lemma GuardedShape(h: Harsh, nhash: nat, buffer: seq<byte>) returns (g1: byte, g2: byte)
    requires |buffer| >= 2 && (|buffer| < h.hashLength ==> |h.guards| > 0)
    ensures var r := Guarded(h, nhash, buffer);
            (|buffer| >= h.hashLength && r == buffer)
            || (g1 in h.guards && r == [g1] + buffer && |r| >= h.hashLength)
            || (g1 in h.guards && g2 in h.guards && r == [g1] + buffer + [g2] && |r| < h.hashLength + 1)
  {
    if |buffer| >= h.hashLength {
      g1, g2 := 0, 0;
    } else {
      g1 := h.guards[(nhash + buffer[0]) % |h.guards|];
      var front := [g1] + buffer;
      g2 := h.guards[(nhash + front[2]) % |h.guards|];
    }
  }

  /** The unpadded hashid holds no guard. */
  lemma BodyAvoidsGuards(h: Harsh, values: seq<u64>)
    requires WellFormed(h) && |values| > 0
    ensures Disjoint(Body(h, values), h.guards)
  {
    var lottery := Lottery(h, values);
    PiecesAvoidGuards(h, values, lottery, 0);
    assert lottery in h.alphabet;
    DisjointConcat([lottery], Pieces(h, values, lottery, 0), h.guards);
  }

  /** Stripping the guards of a hashid gives back its unpadded form. */
  lemma StripEncoded(h: Harsh, values: seq<u64>)
    requires WellFormed(h) && |values| > 0
    ensures StripGuards(h, Encoded(h, values)) == Body(h, values)
  {
    var lottery := Lottery(h, values);
    var a := Reshuffled(h.alphabet, lottery, h.salt, |values|);
    ReshuffledAlphabet(h.alphabet, lottery, h.salt, |values|);
    BodyAvoidsGuards(h, values);
    EncodedUnfold(h, values);
    StripPadded(h, a, NHash(values), Body(h, values));
  }

  /** A non-empty sequence encodes as its guarded, padded unpadded form. */
  lemma EncodedUnfold(h: Harsh, values: seq<u64>)
    requires Encodable(h) && |values| > 0
    ensures Encoded(h, values) ==
              Wrapped(Reshuffled(h.alphabet, Lottery(h, values), h.salt, |values|),
                      Guarded(h, NHash(values), Body(h, values)), h.hashLength)
  {
  }

  /** Guarding and padding a guard-free buffer over a guard-free alphabet is undone by stripping the guards. */
  lemma StripPadded(h: Harsh, a: seq<byte>, nhash: nat, body: seq<byte>)
    requires |h.guards| > 0 && Disjoint(h.alphabet, h.guards)
    requires |a| >= 1 && Within(a, h.alphabet)
    requires |body| >= 2 && Disjoint(body, h.guards)
    ensures StripGuards(h, Wrapped(a, Guarded(h, nhash, body), h.hashLength)) == body
  {
    var g := Guarded(h, nhash, body);
    var g1, g2 := GuardedShape(h, nhash, body);
    if |body| >= h.hashLength {
      WrappedLength(a, g, h.hashLength);
      StripPlain(h, body);
    } else if |[g1] + body| >= h.hashLength {
      WrappedLength(a, g, h.hashLength);
      StripFront(h, g1, body);
    } else {
      var pre, post := WrappedShape(a, g, h.hashLength);
      PaddingAvoidsGuards(h, a, pre, post);
      StripBoth(h, pre, g1, body, g2, post, Wrapped(a, g, h.hashLength));
    }
  }

  /** Padding drawn from an alphabet free of guards holds no guard. */
  lemma PaddingAvoidsGuards(h: Harsh, a: seq<byte>, pre: seq<byte>, post: seq<byte>)
    requires Disjoint(h.alphabet, h.guards) && Within(a, h.alphabet)
    requires Within(pre, a) && Within(post, a)
    ensures Disjoint(pre, h.guards) && Disjoint(post, h.guards)
  {
  }

  // ---------------------------------------------------------------------
  // Decoding a hashid gives its values back

  /** Every non-empty sequence of values survives a round trip through its hashid. */
  lemma RoundTrip(h: Harsh, values: seq<u64>)
    requires WellFormed(h) && |values| > 0
    ensures Decoded(h, Encoded(h, values)) == Ok(values)
  {
    var lottery := Lottery(h, values);
    var body := Body(h, values);
    StripEncoded(h, values);
    assert body[0] == lottery && body[1..] == Pieces(h, values, lottery, 0);
    SplitPieces(h, values, lottery, 0);
    var hs := Hashes(h, values, lottery);
    assert hs[0..] == hs;
    UnhashHashes(h, values, lottery);
  }

  /** Two non-empty sequences with the same hashid are the same sequence. */
  lemma EncodedInjective(h: Harsh, xs: seq<u64>, ys: seq<u64>)
    requires WellFormed(h) && |xs| > 0 && |ys| > 0
    ensures Encoded(h, xs) == Encoded(h, ys) <==> xs == ys
  {
    RoundTrip(h, xs);
    RoundTrip(h, ys);
  }

  /**
   * A hashid is never shorter than the minimum length: a short unpadded
   * form is padded to exactly that length, a long one is left as it is.
   */
  lemma EncodedLength(h: Harsh, values: seq<u64>)
    requires Encodable(h) && |values| > 0
    ensures |Body(h, values)| >= h.hashLength ==> Encoded(h, values) == Body(h, values)
    ensures |Body(h, values)| < h.hashLength ==> |Encoded(h, values)| == h.hashLength
    ensures |Encoded(h, values)| >= h.hashLength
  {
    var body := Body(h, values);
    var a := Reshuffled(h.alphabet, Lottery(h, values), h.salt, |values|);
    var g := Guarded(h, NHash(values), body);
    EncodedUnfold(h, values);
    var _, _ := GuardedShape(h, NHash(values), body);
    WrappedLength(a, g, h.hashLength);
  }

  // ---------------------------------------------------------------------
  // decode as a release build runs it

  /** `unhash` of each of the first `k` segments with the wrapping fold; `None` as soon as one fails. */
  function UnhashFirstWrapping(alphabets: seq<seq<byte>>, segments: seq<seq<byte>>, k: nat): (r: Option<seq<u64>>)
    requires k <= |segments| && k <= |alphabets|
    ensures r.Some? ==> |r.value| == k
  {
    if k == 0 then Some([])
    else match UnhashFirstWrapping(alphabets, segments, k - 1)
      case None => None
      case Some(xs) =>
        match UnhashWrapping(segments[k - 1], alphabets[k - 1])
        case None => None
        case Some(x) => Some(xs + [x])
  }

  /**
   * `decode` as the source writes it, in a release build: the segments are
   * unhashed with the wrapping addition, so only the re-encode check stands
   * between a wrapped value and the caller.
   */
  function DecodedAsWritten(h: Harsh, input: seq<byte>): (r: Result<seq<u64>, Error>)
    requires Encodable(h)
    ensures r.Ok? ==> Encoded(h, r.value) == input
  {
    var value := StripGuards(h, input);
    if |value| < 2 then Err(Error.Decode(DecodeError.Hash))
    else
      var segments := Split(value[1..], h.separators);
      match UnhashFirstWrapping(Alphabets(h, value[0], |segments|), segments, |segments|)
      case None => Err(Error.Decode(DecodeError.Value))
      case Some(result) => if Encoded(h, result) == input then Ok(result) else Err(Error.Decode(DecodeError.Hash))
  }

  /**
   * Where the checked fold succeeds the wrapping one gives the same values,
   * and where the wrapping fold fails so does the checked one.
   */
  lemma {:induction false} UnhashFirstAgree(alphabets: seq<seq<byte>>, segments: seq<seq<byte>>, k: nat)
    requires k <= |segments| && k <= |alphabets|
    ensures UnhashFirst(alphabets, segments, k).Some? ==>
              UnhashFirstWrapping(alphabets, segments, k) == UnhashFirst(alphabets, segments, k)
    ensures UnhashFirstWrapping(alphabets, segments, k).None? ==> UnhashFirst(alphabets, segments, k).None?
    decreases k
  {
    if k > 0 {
      UnhashFirstAgree(alphabets, segments, k - 1);
      UnhashAgree(segments[k - 1], alphabets[k - 1]);
    }
  }

  /** A segment the checked fold accepts has the same value wrapping; one the wrapping fold rejects, the checked one rejects. */
  lemma UnhashAgree(input: seq<byte>, alphabet: seq<byte>)
    ensures Unhash(input, alphabet).Some? ==> UnhashWrapping(input, alphabet) == Unhash(input, alphabet)
    ensures UnhashWrapping(input, alphabet).None? ==> Unhash(input, alphabet).None?
  {
    UnhashFoldsAgree(input, alphabet, |input|);
    match UnhashPrefixAsWritten(input, alphabet, |input|)
    case None =>
    case Some(x) =>
      assert UnhashWrapping(input, alphabet) == Some(x % U64_MODULUS);
      if x < U64_MODULUS {
        assert Unhash(input, alphabet) == Some(x);
      }
  }

  /**
   * On a well-formed configuration the checked decode returns what the
   * source's decode returns, except on a hashid with a segment whose sum
   * overflows: there the source wraps and fails the re-encode check with
   * `Decode(Hash)`, where the checked decode reports `Decode(Value)`.
   */
  lemma DecodedAsWrittenAgrees(h: Harsh, input: seq<byte>)
    requires WellFormed(h)
    ensures DecodedAsWritten(h, input) == Decoded(h, input)
            || (Decoded(h, input) == Err(Error.Decode(DecodeError.Value))
                && DecodedAsWritten(h, input) == Err(Error.Decode(DecodeError.Hash)))
  {
    var value := StripGuards(h, input);
    if |value| >= 2 {
      var segments := Split(value[1..], h.separators);
      var alphabets := Alphabets(h, value[0], |segments|);
      UnhashFirstAgree(alphabets, segments, |segments|);
      match UnhashFirstWrapping(alphabets, segments, |segments|)
      case None =>
      case Some(result) =>
        if Encoded(h, result) == input {
          RoundTrip(h, result);
        }
    }
  }
}
