/** Keys of the ordered key-value store: byte strings of bounded length,
    ordered byte-lexicographically, with successor, predecessor and
    prefix-range-end arithmetic. Every operation returns a new key. */
module Keys {
  import opened Base

  type Byte = x: int | 0 <= x < 256

  /** A Go `Key` ([]byte). A nil key and an empty key are both `[]`. */
  type Key = seq<Byte>

  /** The longest key the store addresses (4096 bytes). */
  const KeyMaxLength: nat := 4096

  /** `n` copies of byte `b`, as the test tables' strings.Repeat builds them. */
  function Repeat(b: Byte, n: nat): (r: seq<Byte>)
    ensures |r| == n
    ensures forall i :: 0 <= i < n ==> r[i] == b
  {
    if n == 0 then [] else Repeat(b, n - 1) + [b]
  }

  /** The least key. */
  const KeyMin: Key := []

  /** The greatest key of at most KeyMaxLength bytes: KeyMaxLength bytes 0xff. */
  const KeyMax: Key := Repeat(0xff, KeyMaxLength)

  predicate AllFF(k: Key)
  {
    forall i :: 0 <= i < |k| ==> k[i] == 0xff
  }

  // ---------------------------------------------------------------------
  // Ordering

  /** Key.Compare (bytes.Compare): -1, 0 or 1 by unsigned byte order, a
      proper prefix being smaller. */
  function Compare(a: Key, b: Key): (c: int)
    ensures -1 <= c <= 1
    decreases |a|
  {
    if a == [] then (if b == [] then 0 else -1)
    else if b == [] then 1
    else if a[0] < b[0] then -1
    else if a[0] > b[0] then 1
    else Compare(a[1..], b[1..])
  }

  /** Key.Less: `a` comes first in the positional lexicographic order. */
  function Less(a: Key, b: Key): (r: bool)
    ensures r <==> LexLess(a, b)
  {
    CompareMeaning(a, b);
    Compare(a, b) < 0
  }

  /** Key.Equal (bytes.Equal): the same bytes, which is what Compare
      reports as 0. */
  function Equal(a: Key, b: Key): (r: bool)
    ensures r <==> Compare(a, b) == 0
  {
    CompareMeaning(a, b);
    a == b
  }

  /** `p` is a prefix of `k` (possibly all of it). */
  ghost predicate IsPrefix(p: Key, k: Key)
  {
    |p| <= |k| && k[..|p|] == p
  }

  /** `a` and `b` agree before index `i` and `a` has the smaller byte at `i`. */
  ghost predicate FirstDiffLess(a: Key, b: Key, i: nat)
  {
    i < |a| && i < |b| && a[..i] == b[..i] && a[i] < b[i]
  }

  /** Reference definition of the lexicographic order, by positions. */
  ghost predicate LexLess(a: Key, b: Key)
  {
    (|a| < |b| && IsPrefix(a, b)) || exists i: nat :: FirstDiffLess(a, b, i)
  }

  /** Dropping one equal leading byte from both keys keeps the order. */
  lemma {:induction false} LexLessTail(a: Key, b: Key)
    requires a != [] && b != [] && a[0] == b[0]
    ensures LexLess(a, b) <==> LexLess(a[1..], b[1..])
  {
    var a', b' := a[1..], b[1..];
    assert a == [a[0]] + a';
    assert b == [b[0]] + b';
    if |a| < |b| {
      assert b[..|a|] == [b[0]] + b'[..|a'|];
    }
    if i: nat :| FirstDiffLess(a, b, i) {
      assert i != 0;
      assert a'[..i - 1] == a[1..i] == b[1..i] == b'[..i - 1];
      assert FirstDiffLess(a', b', i - 1);
    }
    if i: nat :| FirstDiffLess(a', b', i) {
      assert a[..i + 1] == [a[0]] + a'[..i];
      assert b[..i + 1] == [b[0]] + b'[..i];
      assert FirstDiffLess(a, b, i + 1);
    }
  }

  /** Compare agrees with the positional definition of the order. */
  lemma {:induction false} CompareMeaning(a: Key, b: Key)
    ensures Compare(a, b) == 0 <==> a == b
    ensures Compare(a, b) == -1 <==> LexLess(a, b)
    ensures Compare(a, b) == 1 <==> LexLess(b, a)
    decreases |a|
  {
    if a == [] || b == [] {
    } else if a[0] != b[0] {
      if a[0] < b[0] {
        assert FirstDiffLess(a, b, 0);
      } else {
        assert FirstDiffLess(b, a, 0);
      }
    } else {
      CompareMeaning(a[1..], b[1..]);
      LexLessTail(a, b);
      LexLessTail(b, a);
      assert a == [a[0]] + a[1..];
      assert b == [b[0]] + b[1..];
    }
  }

  /** Compare is antisymmetric. */
  lemma CompareAntisymmetric(a: Key, b: Key)
    ensures Compare(a, b) == -Compare(b, a)
  {
    CompareMeaning(a, b);
    CompareMeaning(b, a);
  }

  /** Less is a strict total order: irreflexive, asymmetric, total. */
  lemma LessTrichotomy(a: Key, b: Key)
    ensures !Less(a, a)
    ensures !(Less(a, b) && Less(b, a))
    ensures Less(a, b) || a == b || Less(b, a)
  {
    CompareMeaning(a, b);
    CompareMeaning(b, a);
    CompareMeaning(a, a);
  }

  /** Less is transitive. */
  lemma {:induction false} LessTransitive(a: Key, b: Key, c: Key)
    requires Less(a, b) && Less(b, c)
    ensures Less(a, c)
    decreases |a|
  {
    if a != [] && a[0] == b[0] && b[0] == c[0] {
      LessTransitive(a[1..], b[1..], c[1..]);
    }
  }

  /** Less is exactly Compare returning -1 (Equal is Compare returning 0 by
      its own contract). */
  lemma LessIffCompareMinusOne(a: Key, b: Key)
    ensures Less(a, b) <==> Compare(a, b) == -1
  {
    CompareMeaning(a, b);
  }

  lemma PrefixLess(a: Key, b: Key)
    requires |a| < |b| && IsPrefix(a, b)
    ensures Less(a, b)
  {
    CompareMeaning(a, b);
  }

  lemma DiffLess(a: Key, b: Key, i: nat)
    requires FirstDiffLess(a, b, i)
    ensures Less(a, b)
  {
    CompareMeaning(a, b);
  }

  /** A key that starts with `p[..j]` and is no longer than `p` is at most
      `p` when every byte of `p` from `j` on is 0xff. */
  lemma {:induction false} FFTailIsMaximal(p: Key, m: Key, j: nat)
    requires j <= |m| <= |p|
    requires m[..j] == p[..j]
    requires AllFF(p[j..])
    ensures m == p || Less(m, p)
    decreases |p| - j
  {
    if j == |m| {
      if j < |p| {
        PrefixLess(m, p);
      }
    } else if m[j] < p[j] {
      DiffLess(m, p, j);
    } else {
      assert p[j..][0] == p[j];
      assert m[..j + 1] == m[..j] + [m[j]];
      assert p[..j + 1] == p[..j] + [p[j]];
      assert p[j + 1..] == p[j..][1..];
      FFTailIsMaximal(p, m, j + 1);
    }
  }

  /** KeyMax is the greatest key of at most KeyMaxLength bytes. */
  lemma KeyMaxIsMaximum(m: Key)
    requires |m| <= KeyMaxLength
    ensures m == KeyMax || Less(m, KeyMax)
  {
    assert KeyMax[0..] == KeyMax;
    FFTailIsMaximal(KeyMax, m, 0);
  }

  // ---------------------------------------------------------------------
  // Successor

  /** Key.Next: the least key greater than `k`, by appending a zero byte.
      The caller keeps `k` shorter than KeyMaxLength, so the result stays
      within it. */
  function Next(k: Key): (r: Key)
    ensures |r| == |k| + 1
    ensures Less(k, r) && !Equal(k, r)
  {
    assert (k + [0])[..|k|] == k;
    PrefixLess(k, k + [0]);
    k + [0]
  }

  /** No key lies strictly between `k` and Next(k). */
  lemma NextIsImmediateSuccessor(k: Key, m: Key)
    ensures Less(k, m) <==> (m == Next(k) || Less(Next(k), m))
  {
    var n := Next(k);
    assert n[..|k|] == k;
    if Less(k, m) && m != n {
      CompareMeaning(k, m);
      if |k| < |m| && IsPrefix(k, m) {
        assert n[..|k|] == m[..|k|];
        if m[|k|] > 0 {
          DiffLess(n, m, |k|);
        } else {
          assert m[..|k| + 1] == m[..|k|] + [m[|k|]];
          assert |m| != |k| + 1;
          PrefixLess(n, m);
        }
      } else {
        var i: nat :| FirstDiffLess(k, m, i);
        assert n[..i] == k[..i];
        DiffLess(n, m, i);
      }
    }
    if m == n || Less(n, m) {
      if Less(n, m) {
        LessTransitive(k, n, m);
      }
    }
  }

  // ---------------------------------------------------------------------
  // Predecessor

  /** The bounds violations of key arithmetic: KeyMin has no predecessor,
      and a key longer than KeyMaxLength lies outside the key space. */
  datatype KeyError = NoPredecessor | KeyTooLong

  /** Key.Prev: fails on KeyMin and on a key longer than KeyMaxLength;
      drops a trailing zero byte; otherwise decrements the last byte and
      pads with 0xff up to KeyMaxLength. */
  function Prev(k: Key): (r: Result<Key, KeyError>)
    ensures r.Failure? <==> k == KeyMin || |k| > KeyMaxLength
    ensures r.Failure? ==> r.error == (if k == KeyMin then NoPredecessor else KeyTooLong)
    ensures r.Success? ==> Less(r.value, k) && |r.value| <= KeyMaxLength
  {
    if k == [] then Failure(NoPredecessor)
    else if |k| > KeyMaxLength then Failure(KeyTooLong)
    else
      var n := |k| - 1;
      if k[n] == 0 then
        assert k[..n] == k[..n][..n];
        PrefixLess(k[..n], k);
        Success(k[..n])
      else
        var p := k[..n] + [k[n] - 1] + Repeat(0xff, KeyMaxLength - |k|);
        assert p[..n] == k[..n];
        DiffLess(p, k, n);
        Success(p)
  }

  /** Prev(k) is the greatest key of at most KeyMaxLength bytes below `k`. */
  lemma PrevIsImmediatePredecessor(k: Key, m: Key)
    requires k != KeyMin && |k| <= KeyMaxLength && |m| <= KeyMaxLength
    ensures Prev(k).Success?
    ensures Less(m, k) <==> (m == Prev(k).value || Less(m, Prev(k).value))
  {
    var p := Prev(k).value;
    var n := |k| - 1;
    assert p[..n] == k[..n];
    if Less(m, k) && m != p {
      CompareMeaning(m, k);
      if |m| < |k| && IsPrefix(m, k) {
        assert p[..|m|] == k[..n][..|m|] == m;
        if |m| < |p| {
          PrefixLess(m, p);
        }
      } else {
        var i: nat :| FirstDiffLess(m, k, i);
        if i < n {
          assert p[..i] == k[..n][..i] == k[..i];
          DiffLess(m, p, i);
        } else if m[n] < p[n] {
          assert p[..n] == m[..n];
          DiffLess(m, p, n);
        } else {
          assert m[..n + 1] == m[..n] + [m[n]];
          assert p[..n + 1] == p[..n] + [p[n]];
          assert p[n + 1..] == Repeat(0xff, KeyMaxLength - |k|);
          FFTailIsMaximal(p, m, n + 1);
        }
      }
    }
    if Less(m, p) {
      LessTransitive(m, p, k);
    }
  }

  /** Prev undoes Next while Next stays within KeyMaxLength; beyond it,
      Prev reports the over-long key. */
  lemma PrevOfNext(k: Key)
    ensures |k| < KeyMaxLength ==> Prev(Next(k)) == Success(k)
    ensures |k| >= KeyMaxLength ==> Prev(Next(k)) == Failure(KeyTooLong)
  {
    assert Next(k)[..|k|] == k;
  }

  // ---------------------------------------------------------------------
  // Prefix end

  /** Drops the trailing 0xff bytes of `k` and increments the last byte
      left; None when every byte is 0xff. The result keeps the bytes of `k`
      before its last position and has the incremented byte there. */
  function StripAndIncrement(k: Key): (r: Option<Key>)
    ensures r.None? <==> AllFF(k)
    ensures r.Some? ==>
      var e := r.value;
      0 < |e| <= |k| && e[..|e| - 1] == k[..|e| - 1] && k[|e| - 1] < 0xff && e[|e| - 1] == k[|e| - 1] + 1 && AllFF(k[|e|..])
    decreases |k|
  {
    if k == [] then None
    else
      var n := |k| - 1;
      if k[n] == 0xff then
        var r := StripAndIncrement(k[..n]);
        if r.Some? then
          var e := r.value;
          assert k[..n][..|e| - 1] == k[..|e| - 1];
          assert k[|e|..] == k[..n][|e|..] + [k[n]];
          r
        else
          r
      else
        assert !AllFF(k);
        Some(k[..n] + [k[n] + 1])
  }

  /** The tight end of the prefix range of `k`: KeyMax for KeyMin, `k`
      itself when every byte is 0xff, else StripAndIncrement(k). */
  function TightPrefixEnd(k: Key): (r: Key)
    ensures k == KeyMin ==> r == KeyMax
    ensures k != KeyMin && AllFF(k) ==> r == k
    ensures k != KeyMin ==> |r| <= |k|
  {
    if k == [] then KeyMax
    else match StripAndIncrement(k)
      case None => k
      case Some(e) => e
  }

  /** For a key that is neither empty nor all 0xff, [k, TightPrefixEnd(k))
      is exactly the set of keys that have `k` as a prefix. */
  lemma TightPrefixEndBoundsPrefixRange(k: Key, m: Key)
    requires k != KeyMin && !AllFF(k)
    ensures IsPrefix(k, m) <==> (!Less(m, k) && Less(m, TightPrefixEnd(k)))
  {
    var e := TightPrefixEnd(k);
    var j := |e| - 1;
    assert e[..j] == k[..j] && e[j] == k[j] + 1 && AllFF(k[|e|..]);
    if IsPrefix(k, m) {
      LessTrichotomy(m, k);
      if m != k {
        PrefixLess(k, m);
      }
      assert m[..j] == k[..j] by {
        assert m[..j] == m[..|k|][..j];
      }
      DiffLess(m, e, j);
    }
    if !Less(m, k) && !IsPrefix(k, m) {
      CompareMeaning(m, k);
      var i: nat :| FirstDiffLess(k, m, i);
      if i > j {
        assert false;
      } else if i < j {
        assert e[..i] == e[..j][..i] == k[..j][..i] == k[..i];
        DiffLess(e, m, i);
      } else if m[j] == e[j] {
        assert m[..j + 1] == m[..j] + [m[j]];
        assert e == e[..j] + [e[j]];
        assert m[..|e|] == e;
        if |e| < |m| {
          PrefixLess(e, m);
        }
      } else {
        DiffLess(e, m, j);
      }
      LessTrichotomy(m, e);
    }
  }

  /** Adds one to `k` read as a big-endian number of |k| bytes: trailing
      0xff bytes carry round to 0x00. None when every byte is 0xff. */
  function Increment(k: Key): (r: Option<Key>)
    ensures r.None? <==> AllFF(k)
    ensures r.Some? ==> |r.value| == |k|
    decreases |k|
  {
    if k == [] then None
    else
      var n := |k| - 1;
      if k[n] < 0xff then Some(k[..n] + [k[n] + 1])
      else
        assert forall i :: 0 <= i < n ==> k[..n][i] == k[i];
        match Increment(k[..n])
        case None => None
        case Some(e) => Some(e + [0])
  }

  /** Incrementing with carry is StripAndIncrement padded back to the
      original length with zero bytes. */
  lemma {:induction false} IncrementIsPaddedStrip(k: Key)
    requires !AllFF(k)
    ensures StripAndIncrement(k).Some? && Increment(k).Some?
    ensures Increment(k).value
      == StripAndIncrement(k).value + Repeat(0, |k| - |StripAndIncrement(k).value|)
    decreases |k|
  {
    var n := |k| - 1;
    if k[n] == 0xff {
      assert !AllFF(k[..n]);
      IncrementIsPaddedStrip(k[..n]);
    }
  }

  /** Key.PrefixEnd as the test pins it: KeyMax for KeyMin, `k` itself when
      every byte is 0xff, otherwise `k` incremented with carry, keeping its
      length ({0x00, 0xff} gives {0x01, 0x00}). */
  function PrefixEnd(k: Key): (r: Key)
    ensures k == KeyMin ==> r == KeyMax
    ensures k != KeyMin ==> |r| == |k|
    ensures k != KeyMin && AllFF(k) ==> r == k
  {
    if k == [] then KeyMax
    else match Increment(k)
      case None => k
      case Some(e) => e
  }

  /** Every key that has `k` as a prefix lies below PrefixEnd(k), and the
      tight end never lies above it. */
  lemma PrefixEndIsUpperBound(k: Key, m: Key)
    requires k != KeyMin && !AllFF(k) && IsPrefix(k, m)
    ensures Less(m, PrefixEnd(k))
    ensures TightPrefixEnd(k) == PrefixEnd(k) || Less(TightPrefixEnd(k), PrefixEnd(k))
  {
    var t, p := TightPrefixEnd(k), PrefixEnd(k);
    IncrementIsPaddedStrip(k);
    TightPrefixEndBoundsPrefixRange(k, m);
    if |t| < |p| {
      assert p[..|t|] == t;
      PrefixLess(t, p);
      LessTransitive(m, t, p);
    } else {
      assert p == t;
    }
  }

  /** PrefixEnd(k) lies above `k` and above Next(k). */
  lemma PrefixEndAboveNext(k: Key)
    requires k != KeyMin && !AllFF(k)
    ensures Less(k, PrefixEnd(k)) && Less(Next(k), PrefixEnd(k))
  {
    assert k[..|k|] == k;
    PrefixEndIsUpperBound(k, k);
    assert Next(k)[..|k|] == k;
    PrefixEndIsUpperBound(k, Next(k));
  }

  /** As written, [k, PrefixEnd(k)) also holds keys without the prefix `k`:
      {0x01} lies in [{0x00, 0xff}, {0x01, 0x00}). */
  lemma PrefixEndAdmitsNonPrefixKey()
    ensures PrefixEnd([0x00, 0xff]) == [0x01, 0x00]
    ensures !Less([0x01], [0x00, 0xff]) && Less([0x01], PrefixEnd([0x00, 0xff]))
    ensures !IsPrefix([0x00, 0xff], [0x01])
  {
    assert [0x00, 0xff][..1] == [0x00];
  }

  /** Every key of at most KeyMaxLength bytes other than KeyMax lies below
      PrefixEnd(KeyMin). */
  lemma PrefixEndOfKeyMin(m: Key)
    requires |m| <= KeyMaxLength && m != KeyMax
    ensures Less(m, PrefixEnd(KeyMin))
  {
    KeyMaxIsMaximum(m);
  }
}
