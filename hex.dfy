// Hexadecimal strings through the codec: `encode_hex` reads the string in
// chunks of twelve digits, each behind a leading `1` so that leading zeros
// survive, and `decode_hex` prints each decoded value in lowercase
// hexadecimal without that leading digit.

module HexCodec {
  import opened Bytes
  import opened Math
  import opened Errors
  import opened Codec

  /** The length of the chunks `encode_hex` cuts its input into. */
  const CHUNK: nat := 12

  /** The byte `'1'`, put in front of every chunk. */
  const ONE: byte := 49

  /** `0`-`9`, `a`-`f` or `A`-`F`: the digits `from_str_radix` accepts in base 16. */
  predicate IsHexDigit(c: byte)
  {
    48 <= c <= 57 || 97 <= c <= 102 || 65 <= c <= 70
  }

  predicate AllHex(s: seq<byte>)
  {
    forall i :: 0 <= i < |s| ==> IsHexDigit(s[i])
  }

  /** The value of one hexadecimal digit, in either case. */
  function DigitValue(c: byte): (r: nat)
    requires IsHexDigit(c)
    ensures r < 16
  {
    if c <= 57 then c - 48 else if c >= 97 then c - 87 else c - 55
  }

  /** The lowercase digit `{:x}` prints for `d`. */
  function LowerDigit(d: nat): (r: byte)
    requires d < 16
    ensures IsHexDigit(r)
  {
    if d < 10 then 48 + d else 87 + d
  }

  /** A hexadecimal digit in lowercase. */
  function LowerCase(c: byte): (r: byte)
    requires IsHexDigit(c)
    ensures r == LowerDigit(DigitValue(c))
  {
    if 65 <= c <= 70 then c + 32 else c
  }

  /** A hexadecimal string in lowercase. */
  function Lower(s: seq<byte>): (r: seq<byte>)
    requires AllHex(s)
    ensures |r| == |s| && forall i :: 0 <= i < |s| ==> r[i] == LowerCase(s[i])
  {
    seq(|s|, i requires 0 <= i < |s| => LowerCase(s[i]))
  }

  /** The value of a hexadecimal numeral, most significant digit first. */
  function HexNumber(s: seq<byte>): nat
    requires AllHex(s)
  {
    if |s| == 0 then 0 else HexNumber(s[..|s| - 1]) * 16 + DigitValue(s[|s| - 1])
  }

  /**
   * `u64::from_str_radix("1" + chunk, 16)`: `None` when a byte is not a
   * hexadecimal digit or the value does not fit in a `u64`.
   */
  function ChunkValue(chunk: seq<byte>): Option<u64>
  {
    var s := [ONE] + chunk;
    if AllHex(s) && HexNumber(s) < U64_MODULUS then Some(HexNumber(s)) else None
  }

  /** `<[u8]>::chunks(12)`: consecutive pieces of twelve bytes, the last one possibly shorter. */
  function Chunks(s: seq<byte>): (r: seq<seq<byte>>)
    ensures |s| == 0 <==> |r| == 0
    decreases |s|
  {
    if |s| == 0 then []
    else if |s| <= CHUNK then [s]
    else [s[..CHUNK]] + Chunks(s[CHUNK..])
  }

  /** The chunk values, or `None` as soon as one chunk does not parse, as `collect` into an `Option`. */
  function ChunkValues(chunks: seq<seq<byte>>): (r: Option<seq<u64>>)
    ensures r.Some? ==> |r.value| == |chunks|
  {
    if |chunks| == 0 then Some([])
    else match ChunkValue(chunks[0])
      case None => None
      case Some(v) =>
        match ChunkValues(chunks[1..])
        case None => None
        case Some(vs) => Some([v] + vs)
  }

  /** `encode_hex`: the hashid of the chunk values, or `Error::Hex`. */
  function EncodedHex(h: Harsh, hex: seq<byte>): (r: Result<seq<byte>, Error>)
    requires Encodable(h)
  {
    EncodableCanEncode(h, []);
    match ChunkValues(Chunks(hex))
    case None => Err(Error.Hex)
    case Some(values) =>
      EncodableCanEncode(h, values);
      Ok(Encoded(h, values))
  }

  /** `format!("{:x}", n)`: lowercase hexadecimal without leading zeros. */
  function LowerHex(n: nat): (r: seq<byte>)
    ensures |r| >= 1
  {
    if n < 16 then [LowerDigit(n)] else LowerHex(n / 16) + [LowerDigit(n % 16)]
  }

  /** What `decode_hex` prints for `values`: each value in hexadecimal without its first digit. */
  function HexOf(values: seq<u64>): (r: seq<byte>)
  {
    if |values| == 0 then [] else LowerHex(values[0])[1..] + HexOf(values[1..])
  }

  /** `decode_hex`: the decoded values printed in hexadecimal, or the decoding error. */
  function DecodedHex(h: Harsh, input: seq<byte>): (r: Result<seq<byte>, Error>)
    requires Encodable(h)
    ensures r.Err? <==> Decoded(h, input).Err?
    ensures r.Err? ==> r.error == Decoded(h, input).error
  {
    match Decoded(h, input)
    case Err(e) => Err(e)
    case Ok(values) => Ok(HexOf(values))
  }

  /** `decode_hex`: decode, then print the values one after another into the result. */
  method DecodeHex(h: Harsh, input: seq<byte>) returns (r: Result<seq<byte>, Error>)
    requires Encodable(h)
    ensures r == DecodedHex(h, input)
  {
    var decoded := Codec.Decode(h, input);
    if decoded.Err? {
      return Err(decoded.error);
    }
    var result := PrintValues(decoded.value);
    r := Ok(result);
  }

  /** The loop of `decode_hex`: each value printed into a buffer, appended without its first digit. */
  method PrintValues(values: seq<u64>) returns (result: seq<byte>)
    ensures result == HexOf(values)
  {
    result := [];
    var i := 0;
    while i < |values|
      invariant 0 <= i <= |values|
      invariant result == HexOf(values[..i])
    {
      var buffer := LowerHex(values[i]);
      HexOfSnoc(values[..i], values[i]);
      assert values[..i + 1] == values[..i] + [values[i]];
      result := result + buffer[1..];
      i := i + 1;
    }
    assert values[..|values|] == values;
  }

  /** Printing one more value appends its digits after the first. */
  lemma {:induction false} HexOfSnoc(values: seq<u64>, v: u64)
    ensures HexOf(values + [v]) == HexOf(values) + LowerHex(v)[1..]
  {
    if |values| > 0 {
      assert (values + [v])[1..] == values[1..] + [v];
      HexOfSnoc(values[1..], v);
    }
  }

  // ---------------------------------------------------------------------
  // Properties

  /** A leading `1` does not change whether a string is hexadecimal. */
  lemma AllHexCons(c: seq<byte>)
    ensures AllHex([ONE] + c) <==> AllHex(c)
  {
    var s := [ONE] + c;
    assert s[1..] == c;
    if AllHex(c) {
      forall i | 0 <= i < |s| ensures IsHexDigit(s[i]) {
        if i > 0 {
          assert s[i] == c[i - 1];
        }
      }
    }
  }

  /** A string is hexadecimal exactly when both of its parts are. */
  lemma AllHexSplit(s: seq<byte>, n: nat)
    requires n <= |s|
    ensures AllHex(s) <==> AllHex(s[..n]) && AllHex(s[n..])
  {
    if AllHex(s[..n]) && AllHex(s[n..]) {
      forall i | 0 <= i < |s| ensures IsHexDigit(s[i]) {
        if i < n {
          assert s[i] == s[..n][i];
        } else {
          assert s[i] == s[n..][i - n];
        }
      }
    }
    if AllHex(s) {
      assert forall i :: 0 <= i < n ==> s[..n][i] == s[i];
      assert forall i :: 0 <= i < |s| - n ==> s[n..][i] == s[n + i];
    }
  }

  /** A numeral of `k` digits is below 16^k. */
  lemma {:induction false} HexNumberBound(s: seq<byte>)
    requires AllHex(s)
    ensures HexNumber(s) < Pow(16, |s|)
  {
    if |s| > 0 {
      var t := s[..|s| - 1];
      assert AllHex(t) by {
        assert forall i :: 0 <= i < |t| ==> t[i] == s[i];
      }
      HexNumberBound(t);
      DigitBelow(HexNumber(t), DigitValue(s[|s| - 1]), Pow(16, |t|));
    }
  }

  /** A numeral below `p` with one more digit is below `16 p`. */
  lemma DigitBelow(n: nat, d: nat, p: nat)
    requires n < p && d < 16
    ensures n * 16 + d < 16 * p
  {
  }

  /**
   * A chunk of at most twelve bytes parses exactly when it is hexadecimal:
   * behind the leading `1` it has at most thirteen digits, below 2^52, so
   * the value always fits in a `u64`.
   */
  lemma ChunkParses(c: seq<byte>)
    requires |c| <= CHUNK
    ensures ChunkValue(c).Some? <==> AllHex(c)
    ensures AllHex(c) ==> AllHex([ONE] + c) && ChunkValue(c) == Some(HexNumber([ONE] + c))
  {
    AllHexCons(c);
    if AllHex(c) {
      NumeralFits([ONE] + c);
    }
  }

  /** A numeral of at most thirteen hexadecimal digits fits in a `u64`. */
  lemma NumeralFits(s: seq<byte>)
    requires AllHex(s) && |s| <= CHUNK + 1
    ensures HexNumber(s) < U64_MODULUS
  {
    HexNumberBound(s);
    PowMonotone(16, |s|, 13);
    Pow16();
  }

  lemma Pow16()
    ensures Pow(16, 13) == 0x10_0000_0000_0000
  {
  }

  /** Printing a value of at least 16 prints its quotient by 16, then its last digit. */
  lemma LowerHexSnoc(n: nat, d: nat)
    requires n >= 1 && d < 16
    ensures LowerHex(n * 16 + d) == LowerHex(n) + [LowerDigit(d)]
  {
    assert (n * 16 + d) / 16 == n && (n * 16 + d) % 16 == d;
  }

  /** A chunk behind its leading `1` prints back as `1` and the chunk in lowercase, leading zeros and all. */
  lemma {:induction false} OneLower(c: seq<byte>)
    requires AllHex(c)
    ensures AllHex([ONE] + c)
    ensures HexNumber([ONE] + c) >= 1
    ensures LowerHex(HexNumber([ONE] + c)) == [ONE] + Lower(c)
  {
    AllHexCons(c);
    if |c| == 0 {
      assert ([ONE] + c)[..0] == [];
    } else {
      var t := c[..|c| - 1];
      AllHexSplit(c, |c| - 1);
      OneLower(t);
      OneLowerStep(t, c[|c| - 1], c);
    }
  }

  /** One more digit behind the leading `1`: printed, it is appended in lowercase. */
  lemma OneLowerStep(t: seq<byte>, x: byte, c: seq<byte>)
    requires AllHex(t) && IsHexDigit(x) && c == t + [x]
    requires AllHex([ONE] + t) && AllHex([ONE] + c) && AllHex(c)
    requires HexNumber([ONE] + t) >= 1
    requires LowerHex(HexNumber([ONE] + t)) == [ONE] + Lower(t)
    ensures HexNumber([ONE] + c) == HexNumber([ONE] + t) * 16 + DigitValue(x)
    ensures HexNumber([ONE] + c) >= 1
    ensures LowerHex(HexNumber([ONE] + c)) == [ONE] + Lower(c)
  {
    var s := [ONE] + c;
    assert s[..|s| - 1] == [ONE] + t;
    LowerHexSnoc(HexNumber([ONE] + t), DigitValue(x));
    assert Lower(c) == Lower(t) + [LowerCase(x)];
  }

  /** Printing values one after the other: the first value, then the rest. */
  lemma HexOfCons(v: u64, vs: seq<u64>)
    ensures HexOf([v] + vs) == LowerHex(v)[1..] + HexOf(vs)
  {
    assert ([v] + vs)[1..] == vs;
  }

  /** Lowercasing a string lowercases each of its parts. */
  lemma LowerSplit(s: seq<byte>, n: nat)
    requires n <= |s| && AllHex(s)
    ensures AllHex(s[..n]) && AllHex(s[n..])
    ensures Lower(s) == Lower(s[..n]) + Lower(s[n..])
  {
    AllHexSplit(s, n);
  }

  /** The chunks of a string: the first chunk, then the chunks of the rest. */
  lemma ChunksCons(hex: seq<byte>) returns (n: nat)
    requires |hex| > 0
    ensures 1 <= n <= CHUNK && n <= |hex|
    ensures Chunks(hex) == [hex[..n]] + Chunks(hex[n..])
  {
    n := if |hex| <= CHUNK then |hex| else CHUNK;
    if |hex| <= CHUNK {
      assert hex[..n] == hex;
      assert Chunks(hex[n..]) == [];
    }
  }

  /** The chunk values of a chunk list: the first chunk's value, then the rest. */
  lemma ChunkValuesCons(c: seq<byte>, rest: seq<seq<byte>>)
    ensures ChunkValues([c] + rest) ==
              match ChunkValue(c)
              case None => None
              case Some(v) => if ChunkValues(rest).Some? then Some([v] + ChunkValues(rest).value) else None
  {
    assert ([c] + rest)[0] == c;
    assert ([c] + rest)[1..] == rest;
  }

  /**
   * The chunks of a string all parse exactly when it is hexadecimal, and
   * then printing their values gives the string back in lowercase.
   */
  lemma {:induction false} HexChunks(hex: seq<byte>)
    ensures ChunkValues(Chunks(hex)).Some? <==> AllHex(hex)
    ensures AllHex(hex) ==> HexOf(ChunkValues(Chunks(hex)).value) == Lower(hex)
    decreases |hex|
  {
    if |hex| > 0 {
      var n := ChunksCons(hex);
      var c, rest := hex[..n], hex[n..];
      HexChunks(rest);
      ChunkParses(c);
      AllHexSplit(hex, n);
      ChunkValuesCons(c, Chunks(rest));
      if AllHex(hex) {
        var v := HexNumber([ONE] + c);
        var vs := ChunkValues(Chunks(rest)).value;
        OneLower(c);
        HexOfCons(v, vs);
        LowerSplit(hex, n);
      }
    }
  }

  /** `encode_hex` fails, with `Error::Hex`, exactly when the input has a byte that is not a hexadecimal digit. */
  lemma EncodedHexFails(h: Harsh, hex: seq<byte>)
    requires Encodable(h)
    ensures EncodedHex(h, hex).Err? <==> !AllHex(hex)
    ensures EncodedHex(h, hex).Err? ==> EncodedHex(h, hex).error == Error.Hex
  {
    HexChunks(hex);
  }

  /** A non-empty hexadecimal string comes back from its hashid in lowercase. */
  lemma HexRoundTrip(h: Harsh, hex: seq<byte>)
    requires WellFormed(h) && |hex| > 0 && AllHex(hex)
    ensures EncodedHex(h, hex).Ok?
    ensures DecodedHex(h, EncodedHex(h, hex).value) == Ok(Lower(hex))
  {
    HexChunks(hex);
    var values := ChunkValues(Chunks(hex)).value;
    RoundTrip(h, values);
  }
}
