/** The binary sniffer (`is_probably_binary`): a byte buffer looks binary
    when it holds a NUL byte anywhere, or when more than 30% of its first
    4096 bytes fall outside printable ASCII, tab, line feed and carriage
    return. */
module Sniffer {

  newtype byte = x: int | 0 <= x < 256

  /** How many leading bytes the ratio test looks at. */
  const SampleSize: nat := 4096

  /** Printable ASCII (32..126) or one of tab, line feed, carriage return. */
  predicate IsTextByte(b: byte)
    ensures IsTextByte(b) ==> 9 <= b <= 126
  {
    32 <= b <= 126 || b == 9 || b == 10 || b == 13
  }

  /** The number of bytes of `s` that are not text bytes. */
  function NonText(s: seq<byte>): (n: nat)
    ensures n <= |s|
  {
    if s == [] then 0
    else NonText(s[..|s| - 1]) + (if IsTextByte(s[|s| - 1]) then 0 else 1)
  }

  /** `data[:4096]`. */
  function Sample(data: seq<byte>): (s: seq<byte>)
    ensures |s| == if |data| < SampleSize then |data| else SampleSize
    ensures s == data[..|s|]
  {
    if |data| < SampleSize then data else data[..SampleSize]
  }

  /** `is_probably_binary`, with the ratio computed exactly. */
  function IsProbablyBinary(data: seq<byte>): (r: bool)
    ensures 0 in data ==> r
    ensures data == [] ==> !r
  {
    if 0 in data then true
    else if data == [] then false
    else
      var sample := Sample(data);
      (NonText(sample) as real) / (|sample| as real) > 0.30
  }

  /** Over exact rationals, `k / len > 0.30` is the integer comparison
      `10 * k > 3 * len`. */
  lemma RatioIsInteger(k: nat, len: nat)
    requires len > 0
    ensures (k as real) / (len as real) > 0.30 <==> 10 * k > 3 * len
  {
    var n, m := k as real, len as real;
    var x := n / m;
    var y := x * m;
    assert y == n;
    var z := 0.30 * m;
    assert 10.0 * z == 3.0 * m;
    if 10 * k > 3 * len {
      assert 10.0 * n > 3.0 * m;
      assert n > z;
      assert x <= 0.30 ==> y <= z;
    } else {
      assert 10.0 * n <= 3.0 * m;
      assert n <= z;
      assert x > 0.30 ==> y > z;
    }
  }

  /** Without a NUL byte, the verdict is `10 * non_text > 3 * len(sample)`
      (for the empty buffer both sides are false). */
  lemma IntegerRatioForm(data: seq<byte>)
    requires 0 !in data
    ensures IsProbablyBinary(data) <==> 10 * NonText(Sample(data)) > 3 * |Sample(data)|
  {
    if data != [] {
      RatioIsInteger(NonText(Sample(data)), |Sample(data)|);
    }
  }

  lemma {:induction false} NonTextAppend(a: seq<byte>, b: seq<byte>)
    ensures NonText(a + b) == NonText(a) + NonText(b)
    decreases |b|
  {
    if b == [] {
      assert a + b == a;
    } else {
      assert (a + b)[..|a + b| - 1] == a + b[..|b| - 1];
      NonTextAppend(a, b[..|b| - 1]);
    }
  }

  /** Without a NUL byte the verdict depends only on the first 4096 bytes:
      two buffers that agree there (and are both at least that long)
      get the same answer, whatever follows. */
  lemma OnlySampleMatters(a: seq<byte>, b: seq<byte>)
    requires 0 !in a && 0 !in b
    requires |a| >= SampleSize && |b| >= SampleSize
    requires a[..SampleSize] == b[..SampleSize]
    ensures IsProbablyBinary(a) == IsProbablyBinary(b)
  {
    IntegerRatioForm(a);
    IntegerRatioForm(b);
  }

  /** A buffer made only of text bytes is never binary. */
  lemma {:induction false} TextOnlyIsNotBinary(data: seq<byte>)
    requires forall i :: 0 <= i < |data| ==> IsTextByte(data[i])
    ensures !IsProbablyBinary(data)
  {
    var s := Sample(data);
    AllTextCount(s);
    assert 0 !in data by {
      forall i | 0 <= i < |data| ensures data[i] != 0 {
        assert IsTextByte(data[i]);
      }
    }
    IntegerRatioForm(data);
  }

  lemma {:induction false} AllTextCount(s: seq<byte>)
    requires forall i :: 0 <= i < |s| ==> IsTextByte(s[i])
    ensures NonText(s) == 0
    decreases |s|
  {
    if s != [] {
      AllTextCount(s[..|s| - 1]);
    }
  }

  lemma {:induction false} NoTextCount(s: seq<byte>)
    requires forall i :: 0 <= i < |s| ==> !IsTextByte(s[i])
    ensures NonText(s) == |s|
    decreases |s|
  {
    if s != [] {
      NoTextCount(s[..|s| - 1]);
    }
  }

  /** A non-empty buffer whose bytes are all outside the text set is binary. */
  lemma NoTextIsBinary(data: seq<byte>)
    requires data != []
    requires forall i :: 0 <= i < |data| ==> !IsTextByte(data[i])
    ensures IsProbablyBinary(data)
  {
    if 0 !in data {
      NoTextCount(Sample(data));
      IntegerRatioForm(data);
    }
  }
}
