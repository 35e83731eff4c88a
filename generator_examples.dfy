/** The expected outputs that the unit tests of generator.py fix, proved of
    the model. */
module GeneratorExamples {
  import opened Bits
  import opened Graphs
  import opened Generator

  /** `test_genSpecs` for one and two vertices. */
  lemma GenSpecsSmall()
    ensures Buckets(1) == [[0], [1]]
    ensures Buckets(2) == [[0], [1, 2], [3]]
  {
    assert Pow2(1) == 2 && Pow2(2) == 4;
    assert PopCount(0) == 0 && PopCount(1) == 1 && PopCount(2) == 1 && PopCount(3) == 2;
    assert Bucket(0, 2) == [0] && Bucket(1, 2) == [1];
    assert Buckets(1) == [Bucket(0, 2), Bucket(1, 2)];
    assert Bucket(0, 4) == [0] && Bucket(1, 4) == [1, 2] && Bucket(2, 4) == [3];
    assert Buckets(2) == [Bucket(0, 4), Bucket(1, 4), Bucket(2, 4)];
  }

  /** The bit counts of the integers below 16. */
  lemma PopCountsBelow16()
    ensures PopCount(0) == 0 && PopCount(1) == 1 && PopCount(2) == 1 && PopCount(3) == 2 && PopCount(4) == 1 && PopCount(5) == 2 && PopCount(6) == 2 && PopCount(7) == 3 && PopCount(8) == 1 && PopCount(9) == 2 && PopCount(10) == 2 && PopCount(11) == 3 && PopCount(12) == 2 && PopCount(13) == 3 && PopCount(14) == 3 && PopCount(15) == 4
  {
    assert PopCount(0) == 0;
  }

  lemma BucketOfSixteen0()
    ensures Bucket(0, 8) == [0]
    ensures Bucket(0, 16) == [0]
  {
    PopCountsBelow16();
    assert Bucket(0, 4) == [0] && Bucket(0, 8) == [0] && Bucket(0, 12) == [0];
  }

  lemma BucketOfSixteen1()
    ensures Bucket(1, 8) == [1, 2, 4]
    ensures Bucket(1, 16) == [1, 2, 4, 8]
  {
    PopCountsBelow16();
    assert Bucket(1, 4) == [1, 2] && Bucket(1, 8) == [1, 2, 4] && Bucket(1, 12) == [1, 2, 4, 8];
  }

  lemma BucketOfSixteen2()
    ensures Bucket(2, 8) == [3, 5, 6]
    ensures Bucket(2, 16) == [3, 5, 6, 9, 10, 12]
  {
    PopCountsBelow16();
    assert Bucket(2, 4) == [3];
    assert Bucket(2, 6) == [3, 5];
    assert Bucket(2, 8) == [3, 5, 6];
    assert Bucket(2, 10) == [3, 5, 6, 9];
    assert Bucket(2, 12) == [3, 5, 6, 9, 10];
    assert Bucket(2, 14) == [3, 5, 6, 9, 10, 12];
  }

  lemma BucketOfSixteen3()
    ensures Bucket(3, 8) == [7]
    ensures Bucket(3, 16) == [7, 11, 13, 14]
  {
    PopCountsBelow16();
    assert Bucket(3, 4) == [] && Bucket(3, 8) == [7] && Bucket(3, 12) == [7, 11];
  }

  lemma BucketOfSixteen4()
    ensures Bucket(4, 8) == []
    ensures Bucket(4, 16) == [15]
  {
    PopCountsBelow16();
    assert Bucket(4, 4) == [] && Bucket(4, 8) == [] && Bucket(4, 12) == [];
  }

  /** `test_genSpecs` for four vertices. */
  lemma GenSpecsFour()
    ensures Buckets(4) == [[0], [1, 2, 4, 8], [3, 5, 6, 9, 10, 12], [7, 11, 13, 14], [15]]
    ensures Buckets(4) == Specs4
  {
    assert Pow2(4) == 16;
    BucketOfSixteen0();
    BucketOfSixteen1();
    BucketOfSixteen2();
    BucketOfSixteen3();
    BucketOfSixteen4();
    assert Buckets(4) == [Bucket(0, 16), Bucket(1, 16), Bucket(2, 16), Bucket(3, 16), Bucket(4, 16)];
  }

  /** `genSpecs(3)`, as the `genValid` tests on three vertices use it. */
  const Specs3: seq<seq<nat>> := [[0], [1, 2, 4], [3, 5, 6], [7]]

  /** `genSpecs(4)`, as `test_genSpecs` states it. */
  const Specs4: seq<seq<nat>> := [[0], [1, 2, 4, 8], [3, 5, 6, 9, 10, 12], [7, 11, 13, 14], [15]]

  lemma GenSpecsThree()
    ensures Buckets(3) == Specs3
  {
    assert Pow2(3) == 8;
    BucketOfSixteen0();
    BucketOfSixteen1();
    BucketOfSixteen2();
    BucketOfSixteen3();
    assert Buckets(3) == [Bucket(0, 8), Bucket(1, 8), Bucket(2, 8), Bucket(3, 8)];
  }

  /** `test_genValid` on two vertices. */
  lemma GenValidTwo()
    ensures Sentinel(Realise(2, [1, 1], Buckets(2))) == [[1]]
    ensures Sentinel(Realise(2, [1, 0], Buckets(2))) == [[]]
  {
  }

  /** The first rows `genValid` tries on three vertices when vertex 0 has
      degree 1: the bucket [1, 2, 4] cut before 4 = 2^2. */
  lemma CutThree()
    ensures Pow2(2) == 4 && Cut(Specs3[1], Pow2(2)) == [1, 2]
  {
    assert Pow2(2) == 4;
    assert Cut(Specs3[1], 4) == [1] + Cut([2, 4], 4);
    assert Cut([2, 4], 4) == [2] + Cut([4], 4);
  }

  /** The bits of the first rows 1 and 2 that `genValid` subtracts from the
      degrees of vertices 1 and 2. */
  lemma RowBitsThree()
    ensures Bit(1, 1) == 0 && Bit(1, 0) == 1 && Bit(2, 1) == 1 && Bit(2, 0) == 0
  {
    assert Shr(1, 1) == 0 && Shr(2, 1) == 1;
  }

  /** On three vertices with vertex 0 of degree 1, `genValid` tries the
      first rows 1 and 2, in that order. */
  lemma ScanThree(degrees: seq<int>)
    requires |degrees| == 3 && degrees[0] == 1 && 0 <= degrees[1] <= 3 && 0 <= degrees[2] <= 3
    ensures DegreesOk(3, degrees, Specs3)
    ensures Realise(3, degrees, Specs3) ==
      Branch(3, degrees, Specs3, 1) + Branch(3, degrees, Specs3, 2)
  {
    CutThree();
    assert [1, 2][..1] == [1] && [1, 2][..0] == [];
  }

  /** On three vertices, the first row num leaves the two-vertex degrees
      (degrees[1] - b1, degrees[2] - b0), where b1 and b0 are its bits; only
      (1, 1) and (0, 0) have a description. */
  lemma BranchThree(degrees: seq<int>, poss: seq<seq<nat>>, num: nat, b1: nat, b0: nat)
    requires DegreesOk(3, degrees, poss) && Bit(num, 1) == b1 && Bit(num, 0) == b0
    ensures Branch(3, degrees, poss, num) ==
      if degrees[1] - b1 == 1 && degrees[2] - b0 == 1 then [[num, 1]]
      else if degrees[1] - b1 == 0 && degrees[2] - b0 == 0 then [[num, 0]]
      else []
  {
    var m := ModDegrees(3, degrees, num);
    assert m == [degrees[1] - b1, degrees[2] - b0];
    if -1 !in m {
      assert Prepend(num, [[1]])[0] == [num] + [1] == [num, 1];
      assert Prepend(num, [[0]])[0] == [num] + [0] == [num, 0];
    }
  }

  /** `test_genValid` on three vertices, with poss = genSpecs(3): degrees
      (1, 1, 1) have no description. */
  lemma GenValidThreeNone(poss: seq<seq<nat>>)
    requires poss == Buckets(3)
    ensures DegreesOk(3, [1, 1, 1], poss) && Sentinel(Realise(3, [1, 1, 1], poss)) == [[]]
  {
    GenSpecsThree();
    ScanThree([1, 1, 1]);
    RowBitsThree();
    BranchThree([1, 1, 1], Specs3, 1, 0, 1);
    BranchThree([1, 1, 1], Specs3, 2, 1, 0);
  }

  /** (1, 1, 2) has only the description with rows 1, 1. */
  lemma GenValidThreeLast(poss: seq<seq<nat>>)
    requires poss == Buckets(3)
    ensures DegreesOk(3, [1, 1, 2], poss) && Sentinel(Realise(3, [1, 1, 2], poss)) == [[1, 1]]
  {
    GenSpecsThree();
    ScanThree([1, 1, 2]);
    RowBitsThree();
    BranchThree([1, 1, 2], Specs3, 1, 0, 1);
    BranchThree([1, 1, 2], Specs3, 2, 1, 0);
  }

  /** (1, 2, 1) has only the description with rows 2, 1. */
  lemma GenValidThreeMiddle(poss: seq<seq<nat>>)
    requires poss == Buckets(3)
    ensures DegreesOk(3, [1, 2, 1], poss) && Sentinel(Realise(3, [1, 2, 1], poss)) == [[2, 1]]
  {
    GenSpecsThree();
    ScanThree([1, 2, 1]);
    RowBitsThree();
    BranchThree([1, 2, 1], Specs3, 1, 0, 1);
    BranchThree([1, 2, 1], Specs3, 2, 1, 0);
  }
}
