/** The key cases the test table pins down, stated on the model. */
module KeyCases {
  import opened Base
  import opened Keys

  const A: Key := [0x61]                // "a"
  const B: Key := [0x62]                // "b"
  const A1: Key := [0x61, 0x31]         // "a1"
  const A2: Key := [0x61, 0x32]         // "a2"
  const Xoxo: Key := [0x78, 0x6f, 0x78, 0x6f]  // "xoxo"
  const TestKey: Key := [0x74, 0x65, 0x73, 0x74, 0x20, 0x6b, 0x65, 0x79]  // "test key"

  /** Next appends one zero byte; nil and the empty key both give "\x00". */
  lemma NextCases()
    ensures Next(KeyMin) == [0x00]
    ensures Next(TestKey) == TestKey + [0x00]
    ensures Next([0xff]) == [0xff, 0x00]
    ensures Next([0xff, 0xff]) == [0xff, 0xff, 0x00]
    ensures Next(Xoxo + [0x00]) == Xoxo + [0x00, 0x00]
    ensures !Equal(A, Next(A)) && Less(A, Next(A))
  {
  }

  /** The PrefixEnd table: KeyMin and the all-0xff keys. */
  lemma PrefixEndFixedCases()
    ensures PrefixEnd([]) == KeyMax
    ensures PrefixEnd([0xff]) == [0xff]
    ensures PrefixEnd([0xff, 0xff]) == [0xff, 0xff]
    ensures PrefixEnd(KeyMax) == KeyMax
  {
    assert AllFF(KeyMax);
  }

  /** The PrefixEnd table: the incrementing and carrying cases. */
  lemma PrefixEndIncrementCases()
    ensures PrefixEnd([0x00]) == [0x01]
    ensures PrefixEnd([0xff, 0xfe]) == [0xff, 0xff]
    ensures PrefixEnd([0x00, 0x00]) == [0x00, 0x01]
    ensures PrefixEnd([0x00, 0xff]) == [0x01, 0x00]
    ensures PrefixEnd([0x00, 0xff, 0xff]) == [0x01, 0x00, 0x00]
  {
    assert [0x00, 0xff, 0xff][..2] == [0x00, 0xff];
  }

  /** "a1" and Next("a1") lie below PrefixEnd("a1"). */
  lemma PrefixEndAboveCases()
    ensures Less(A1, PrefixEnd(A1))
    ensures Less(Next(A1), PrefixEnd(A1))
  {
    assert A1[0] != 0xff;
    PrefixEndAboveNext(A1);
  }

  /** Equal, Less and Compare on the test's pairs. */
  lemma OrderCases()
    ensures Equal(A1, A1) && !Equal(A1, A2)
    ensures Less(KeyMin, [0x00])
    ensures Less(A, B)
    ensures !Less(A + [0x00], A)
    ensures Less(A + [0x00], A + [0x01])
    ensures Compare(KeyMin, KeyMin) == 0
    ensures Compare(KeyMin, [0x00]) == -1
    ensures Compare([0x00], [0x00]) == 0
    ensures Compare(A, B) == -1
    ensures Compare(A + [0x00], A) == 1
    ensures Compare(A + [0x00], A + [0x01]) == -1
  {
    assert A1 != A2 by {
      assert A1[1] != A2[1];
    }
    assert A + [0x00] == [0x61, 0x00];
    assert [0x61, 0x00][1..] == [0x00] && A[1..] == [];
    assert A + [0x01] == [0x61, 0x01];
  }

  /** Prev drops a trailing zero byte, and fails on KeyMin. */
  lemma PrevDropCases()
    ensures Prev([0x00]) == Success([])
    ensures Prev(TestKey + [0x00]) == Success(TestKey)
    ensures Prev(Repeat(0xff, KeyMaxLength - 1) + [0x00])
      == Success(Repeat(0xff, KeyMaxLength - 1))
    ensures Prev(KeyMin) == Failure(NoPredecessor)
  {
    assert (TestKey + [0x00])[..8] == TestKey;
    var f := Repeat(0xff, KeyMaxLength - 1);
    assert (f + [0x00])[..KeyMaxLength - 1] == f;
  }

  /** Prev of a short key with a non-zero last byte decrements it and pads
      with 0xff up to KeyMaxLength. */
  lemma PrevPadCases()
    ensures Prev(TestKey + [0x01])
      == Success(TestKey + [0x00] + Repeat(0xff, KeyMaxLength - 9))
    ensures Prev([0x01]) == Success([0x00] + Repeat(0xff, KeyMaxLength - 1))
  {
    assert (TestKey + [0x01])[..8] == TestKey;
    assert [0x01][..0] + [0x00] == [0x00];
  }

  /** Prev of a full-length key only decrements its last byte. */
  lemma PrevFullLengthCases()
    ensures Prev(Repeat(0xff, KeyMaxLength - 1) + [0x01])
      == Success(Repeat(0xff, KeyMaxLength - 1) + [0x00])
    ensures Prev(KeyMax) == Success(Repeat(0xff, KeyMaxLength - 1) + [0xfe])
  {
    assert Repeat(0xff, 0) == [];
    var f := Repeat(0xff, KeyMaxLength - 1);
    assert (f + [0x01])[..KeyMaxLength - 1] == f;
    assert |f + [0x01]| == KeyMaxLength && (f + [0x01])[KeyMaxLength - 1] == 0x01;
    assert f + [0x00] + [] == f + [0x00];
    assert KeyMax[..KeyMaxLength - 1] == f;
    assert KeyMax[KeyMaxLength - 1] == 0xff;
    assert KeyMax[..KeyMaxLength - 1] + [0xfe] + [] == f + [0xfe];
  }
}
