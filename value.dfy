/** Values stored under keys: raw bytes or a signed 64-bit integer, with an
    optional checksum that binds the content to the key it is stored under. */
module Values {
  import opened Base
  import opened Keys

  /** An ideal checksum: the key and content it was computed over. It
      keeps the bytes field and the integer field apart, so integer 0 and an
      absent integer never share a checksum. */
  datatype Checksum = Checksum(key: Key, bytes: Option<seq<Byte>>, integer: Option<int64>)

  /** The checksum InitChecksum stamps and Verify recomputes. It binds the
      key, and a set integer, 0 included, never shares a checksum with an
      unset one. */
  function ComputeChecksum(key: Key, bytes: Option<seq<Byte>>, integer: Option<int64>): (r: Checksum)
    ensures r.key == key
    ensures integer.Some? ==> r != Checksum(key, bytes, None)
    ensures bytes.Some? ==> r != Checksum(key, None, integer)
  {
    Checksum(key, bytes, integer)
  }

  /** Two checksums agree exactly when key and content agree. */
  lemma ChecksumIsInjective(k1: Key, b1: Option<seq<Byte>>, i1: Option<int64>,
                            k2: Key, b2: Option<seq<Byte>>, i2: Option<int64>)
    ensures ComputeChecksum(k1, b1, i1) == ComputeChecksum(k2, b2, i2)
        <==> k1 == k2 && b1 == b2 && i1 == i2
  {
  }

  datatype ValueError = BothBytesAndInteger | ChecksumMismatch

  /** A Value: at most one of the bytes and integer fields is meant to be
      set; the state with both set stays representable, and Verify rejects it. */
  class Value {
    var bytes: Option<seq<Byte>>
    var integer: Option<int64>
    var checksum: Option<Checksum>

    constructor (bytes: Option<seq<Byte>>, integer: Option<int64>)
      ensures this.bytes == bytes && this.integer == integer && checksum == None
    {
      this.bytes := bytes;
      this.integer := integer;
      checksum := None;
    }

    predicate BothSet()
      reads this
    {
      bytes.Some? && integer.Some?
    }

    /** Value.Verify: rejects a value with both fields set; passes when no
      checksum was stamped; otherwise passes exactly when the stamped
      checksum was computed over this key and the current content. */
    function Verify(key: Key): (r: Outcome<ValueError>)
      reads this
      ensures BothSet() ==> r == Fail(BothBytesAndInteger)
      ensures !BothSet() && checksum.None? ==> r == Pass
      ensures !BothSet() && checksum.Some? ==>
        (r == Pass <==> checksum.value.key == key && checksum.value.bytes == bytes
                        && checksum.value.integer == integer)
      ensures !BothSet() && r != Pass ==> r == Fail(ChecksumMismatch)
    {
      if BothSet() then Fail(BothBytesAndInteger)
      else if checksum.Some? && checksum.value != ComputeChecksum(key, bytes, integer) then
        Fail(ChecksumMismatch)
      else Pass
    }

    /** Value.InitChecksum: stamps the checksum of `key` and the current
      content; afterwards Verify passes for `key` and fails for every other key. */
    method InitChecksum(key: Key)
      modifies this`checksum
      ensures checksum == Some(ComputeChecksum(key, bytes, integer))
      ensures !BothSet() ==> Verify(key) == Pass
      ensures forall other :: other != key ==> Verify(other).Fail?
    {
      checksum := Some(ComputeChecksum(key, bytes, integer));
    }
  }

  /** Once stamped for `key` over some content, changing the content makes
      Verify(key) fail. */
  lemma VerifyRejectsChangedContent(v: Value, key: Key, bytes: Option<seq<Byte>>, integer: Option<int64>)
    requires v.checksum == Some(ComputeChecksum(key, bytes, integer))
    requires v.bytes != bytes || v.integer != integer
    ensures v.Verify(key).Fail?
  {
  }

  /** Replacing a stamped integer `i` by Go's `i + 1` (which wraps at
      MaxInt64) always makes Verify fail. */
  lemma VerifyRejectsIncrementedInteger(v: Value, key: Key, i: int64)
    requires v.checksum == Some(ComputeChecksum(key, v.bytes, Some(i)))
    requires v.integer == Some(WrapAdd64(i, 1))
    ensures v.Verify(key).Fail?
  {
    IncrementChanges(i);
  }

  /** A value with both fields set fails Verify, stamped or not. */
  method BothSetScenario(key: Key, b: seq<Byte>, i: int64) returns (before: bool, after: bool)
    ensures before && after
  {
    var v := new Value(Some(b), Some(i));
    before := v.Verify(key).Fail?;
    v.InitChecksum(key);
    after := v.Verify(key) == Fail(BothBytesAndInteger);
  }

  /** An empty value verifies for any key before stamping, and for its key
      after. */
  method EmptyValueScenario(key: Key, other: Key) returns (unstamped: bool, stamped: bool)
    ensures unstamped && stamped
  {
    var v := new Value(None, None);
    unstamped := v.Verify(key) == Pass && v.Verify(other) == Pass;
    v.InitChecksum(key);
    stamped := v.Verify(key) == Pass;
  }

  /** A stamped bytes value verifies for its key, fails for another key,
      and fails once its bytes change. */
  method BytesScenario(key: Key, other: Key, b: seq<Byte>, b': seq<Byte>)
    returns (same: bool, otherFails: bool, changedFails: bool)
    requires other != key && b' != b
    ensures same && otherFails && changedFails
  {
    var v := new Value(Some(b), None);
    v.InitChecksum(key);
    same := v.Verify(key) == Pass;
    otherFails := v.Verify(other) == Fail(ChecksumMismatch);
    v.bytes := Some(b');
    changedFails := v.Verify(key) == Fail(ChecksumMismatch);
  }

  /** A stamped integer value, for every int64 including 0, MinInt64 and
      MaxInt64, verifies for its key, fails for another key, and fails once
      the integer is replaced by `i + 1`. */
  method IntegerScenario(key: Key, other: Key, i: int64)
    returns (same: bool, otherFails: bool, changedFails: bool)
    requires other != key
    ensures same && otherFails && changedFails
  {
    var v := new Value(None, Some(i));
    v.InitChecksum(key);
    same := v.Verify(key) == Pass;
    otherFails := v.Verify(other) == Fail(ChecksumMismatch);
    v.integer := Some(WrapAdd64(i, 1));
    VerifyRejectsIncrementedInteger(v, key, i);
    changedFails := v.Verify(key) == Fail(ChecksumMismatch);
  }
}
