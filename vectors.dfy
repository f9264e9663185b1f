// The unit-test vectors of the codec's helpers, evaluated on the model:
// the checksum of [1, 2, 3], the hash of 22 over `a`-`z`, and the shuffle
// of "asdfzxcvqwer" with the salt "1234".

module Vectors {
  import opened Bytes
  import opened Shuffle
  import opened Codec
  import opened Builder

  /** "asdfzxcvqwer". */
  const ASDF: seq<byte> := [97, 115, 100, 102, 122, 120, 99, 118, 113, 119, 101, 114]

  /** "1234". */
  const SALT_1234: seq<byte> := [49, 50, 51, 52]

  /** "vdwqfrzcsxae". */
  const ASDF_SHUFFLED: seq<byte> := [118, 100, 119, 113, 102, 114, 122, 99, 115, 120, 97, 101]

  /** The checksum of [1, 2, 3] is 1 + 2 + 3. */
  lemma NHashVector()
    ensures NHash([1, 2, 3]) == 6
  {
    assert [1, 2, 3][..2] == [1, 2];
    assert [1, 2][..1] == [1];
  }

  /** 22 over `a`-`z` is the single digit `w`. */
  lemma HashVector()
    ensures HashOf(22, Run(97, 26)) == [119]
  {
  }

  /** "asdfzxcvqwer" shuffled with "1234" is "vdwqfrzcsxae". */
  lemma ShuffleVector()
    ensures Shuffled(ASDF, SALT_1234) == ASDF_SHUFFLED
  {
    ShuffleVectorStep0();
    ShuffleVectorStep1();
    ShuffleVectorStep2();
    ShuffleVectorStep3();
    ShuffleVectorStep4();
    ShuffleVectorStep5();
    ShuffleVectorStep6();
    ShuffleVectorStep7();
    ShuffleVectorStep8();
    ShuffleVectorStep9();
    ShuffleVectorStep10();
  }

  lemma ShuffleVectorStep0()
    ensures ShuffleFrom([97, 115, 100, 102, 122, 120, 99, 118, 113, 119, 101, 114], SALT_1234, 0, 0, 0) == ShuffleFrom([97, 115, 100, 102, 122, 120, 99, 118, 113, 119, 114, 101], SALT_1234, 1, 1, 49)
  {
    ShuffleStep([97, 115, 100, 102, 122, 120, 99, 118, 113, 119, 101, 114], SALT_1234, 0, 0, 0, 11, 10, 1, 49);
    assert Swap([97, 115, 100, 102, 122, 120, 99, 118, 113, 119, 101, 114], 11, 10) == [97, 115, 100, 102, 122, 120, 99, 118, 113, 119, 114, 101];
  }

  lemma ShuffleVectorStep1()
    ensures ShuffleFrom([97, 115, 100, 102, 122, 120, 99, 118, 113, 119, 114, 101], SALT_1234, 1, 1, 49) == ShuffleFrom([114, 115, 100, 102, 122, 120, 99, 118, 113, 119, 97, 101], SALT_1234, 2, 2, 99)
  {
    ShuffleStep([97, 115, 100, 102, 122, 120, 99, 118, 113, 119, 114, 101], SALT_1234, 1, 1, 49, 10, 0, 2, 99);
    assert Swap([97, 115, 100, 102, 122, 120, 99, 118, 113, 119, 114, 101], 10, 0) == [114, 115, 100, 102, 122, 120, 99, 118, 113, 119, 97, 101];
  }

  lemma ShuffleVectorStep2()
    ensures ShuffleFrom([114, 115, 100, 102, 122, 120, 99, 118, 113, 119, 97, 101], SALT_1234, 2, 2, 99) == ShuffleFrom([114, 115, 100, 102, 122, 119, 99, 118, 113, 120, 97, 101], SALT_1234, 3, 3, 150)
  {
    ShuffleStep([114, 115, 100, 102, 122, 120, 99, 118, 113, 119, 97, 101], SALT_1234, 2, 2, 99, 9, 5, 3, 150);
    assert Swap([114, 115, 100, 102, 122, 120, 99, 118, 113, 119, 97, 101], 9, 5) == [114, 115, 100, 102, 122, 119, 99, 118, 113, 120, 97, 101];
  }

  lemma ShuffleVectorStep3()
    ensures ShuffleFrom([114, 115, 100, 102, 122, 119, 99, 118, 113, 120, 97, 101], SALT_1234, 3, 3, 150) == ShuffleFrom([114, 113, 100, 102, 122, 119, 99, 118, 115, 120, 97, 101], SALT_1234, 4, 4, 202)
  {
    ShuffleStep([114, 115, 100, 102, 122, 119, 99, 118, 113, 120, 97, 101], SALT_1234, 3, 3, 150, 8, 1, 4, 202);
    assert Swap([114, 115, 100, 102, 122, 119, 99, 118, 113, 120, 97, 101], 8, 1) == [114, 113, 100, 102, 122, 119, 99, 118, 115, 120, 97, 101];
  }

  lemma ShuffleVectorStep4()
    ensures ShuffleFrom([114, 113, 100, 102, 122, 119, 99, 118, 115, 120, 97, 101], SALT_1234, 4, 4, 202) == ShuffleFrom([114, 113, 100, 102, 122, 119, 118, 99, 115, 120, 97, 101], SALT_1234, 5, 1, 251)
  {
    ShuffleStep([114, 113, 100, 102, 122, 119, 99, 118, 115, 120, 97, 101], SALT_1234, 4, 4, 202, 7, 6, 1, 251);
    assert Swap([114, 113, 100, 102, 122, 119, 99, 118, 115, 120, 97, 101], 7, 6) == [114, 113, 100, 102, 122, 119, 118, 99, 115, 120, 97, 101];
  }

  lemma ShuffleVectorStep5()
    ensures ShuffleFrom([114, 113, 100, 102, 122, 119, 118, 99, 115, 120, 97, 101], SALT_1234, 5, 1, 251) == ShuffleFrom([114, 113, 100, 102, 118, 119, 122, 99, 115, 120, 97, 101], SALT_1234, 6, 2, 301)
  {
    ShuffleStep([114, 113, 100, 102, 122, 119, 118, 99, 115, 120, 97, 101], SALT_1234, 5, 1, 251, 6, 4, 2, 301);
    assert Swap([114, 113, 100, 102, 122, 119, 118, 99, 115, 120, 97, 101], 6, 4) == [114, 113, 100, 102, 118, 119, 122, 99, 115, 120, 97, 101];
  }

  lemma ShuffleVectorStep6()
    ensures ShuffleFrom([114, 113, 100, 102, 118, 119, 122, 99, 115, 120, 97, 101], SALT_1234, 6, 2, 301) == ShuffleFrom([119, 113, 100, 102, 118, 114, 122, 99, 115, 120, 97, 101], SALT_1234, 7, 3, 352)
  {
    ShuffleStep([114, 113, 100, 102, 118, 119, 122, 99, 115, 120, 97, 101], SALT_1234, 6, 2, 301, 5, 0, 3, 352);
    assert Swap([114, 113, 100, 102, 118, 119, 122, 99, 115, 120, 97, 101], 5, 0) == [119, 113, 100, 102, 118, 114, 122, 99, 115, 120, 97, 101];
  }

  lemma ShuffleVectorStep7()
    ensures ShuffleFrom([119, 113, 100, 102, 118, 114, 122, 99, 115, 120, 97, 101], SALT_1234, 7, 3, 352) == ShuffleFrom([119, 113, 100, 118, 102, 114, 122, 99, 115, 120, 97, 101], SALT_1234, 8, 4, 404)
  {
    ShuffleStep([119, 113, 100, 102, 118, 114, 122, 99, 115, 120, 97, 101], SALT_1234, 7, 3, 352, 4, 3, 4, 404);
    assert Swap([119, 113, 100, 102, 118, 114, 122, 99, 115, 120, 97, 101], 4, 3) == [119, 113, 100, 118, 102, 114, 122, 99, 115, 120, 97, 101];
  }

  lemma ShuffleVectorStep8()
    ensures ShuffleFrom([119, 113, 100, 118, 102, 114, 122, 99, 115, 120, 97, 101], SALT_1234, 8, 4, 404) == ShuffleFrom([119, 118, 100, 113, 102, 114, 122, 99, 115, 120, 97, 101], SALT_1234, 9, 1, 453)
  {
    ShuffleStep([119, 113, 100, 118, 102, 114, 122, 99, 115, 120, 97, 101], SALT_1234, 8, 4, 404, 3, 1, 1, 453);
    assert Swap([119, 113, 100, 118, 102, 114, 122, 99, 115, 120, 97, 101], 3, 1) == [119, 118, 100, 113, 102, 114, 122, 99, 115, 120, 97, 101];
  }

  lemma ShuffleVectorStep9()
    ensures ShuffleFrom([119, 118, 100, 113, 102, 114, 122, 99, 115, 120, 97, 101], SALT_1234, 9, 1, 453) == ShuffleFrom([100, 118, 119, 113, 102, 114, 122, 99, 115, 120, 97, 101], SALT_1234, 10, 2, 503)
  {
    ShuffleStep([119, 118, 100, 113, 102, 114, 122, 99, 115, 120, 97, 101], SALT_1234, 9, 1, 453, 2, 0, 2, 503);
    assert Swap([119, 118, 100, 113, 102, 114, 122, 99, 115, 120, 97, 101], 2, 0) == [100, 118, 119, 113, 102, 114, 122, 99, 115, 120, 97, 101];
  }

  lemma ShuffleVectorStep10()
    ensures ShuffleFrom([100, 118, 119, 113, 102, 114, 122, 99, 115, 120, 97, 101], SALT_1234, 10, 2, 503) == ShuffleFrom([118, 100, 119, 113, 102, 114, 122, 99, 115, 120, 97, 101], SALT_1234, 11, 3, 554)
  {
    ShuffleStep([100, 118, 119, 113, 102, 114, 122, 99, 115, 120, 97, 101], SALT_1234, 10, 2, 503, 1, 0, 3, 554);
    assert Swap([100, 118, 119, 113, 102, 114, 122, 99, 115, 120, 97, 101], 1, 0) == [118, 100, 119, 113, 102, 114, 122, 99, 115, 120, 97, 101];
  }
}
