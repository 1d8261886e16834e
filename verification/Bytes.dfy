/** Results of operations that can raise, shared by every module. */
module Outcomes {
  datatype Option<+T> = None | Some(value: T)

  /** The exceptions the modelled code raises. */
  datatype Error =
    | StructError      // struct.pack or struct.unpack
    | UnicodeError     // bytes.decode
    | InvalidGuid      // str2guid, uuid.UUID
    | MissingAttribute // use of None or of a field that was never set
    | AssertionError
    | TypeError        // use of None where a value is needed
    | ValueError       // ctypes buffer overrun
    | LookupError      // KeyError, IndexError
    | Rejected         // an explicit raise Exception(...)

  datatype Result<+T> = Success(value: T) | Failure(error: Error) {
    predicate IsFailure() { Failure? }
    function PropagateFailure<U>(): Result<U>
      requires Failure?
    {
      Failure(error)
    }
    function Extract(): T
      requires Success?
    {
      value
    }
  }
}

/** Facts about slices and concatenation, by name where the verifier needs them. */
module Sequences {
  /** A slice of a prefix is a slice of the whole. */
  lemma TakeSlice<T>(s: seq<T>, n: nat, lo: nat, hi: nat)
    requires lo <= hi <= n <= |s|
    ensures s[..n][lo..hi] == s[lo..hi]
  {
  }

  /** Two sequences with a common prefix have common slices in it. */
  lemma SamePrefix<T>(s: seq<T>, t: seq<T>, n: nat, lo: nat, hi: nat)
    requires lo <= hi <= n <= |s| && n <= |t| && s[..n] == t[..n]
    ensures s[lo..hi] == t[lo..hi]
  {
    TakeSlice(s, n, lo, hi);
    TakeSlice(t, n, lo, hi);
  }

  lemma JoinSlices<T>(s: seq<T>, lo: nat, mid: nat, hi: nat)
    requires lo <= mid <= hi <= |s|
    ensures s[lo..hi] == s[lo..mid] + s[mid..hi]
  {
  }

  lemma Cons<T>(x: T, s: seq<T>)
    ensures ([x] + s)[0] == x && ([x] + s)[1..] == s
    ensures s != [] ==> ([x] + s)[..|s|] == [x] + s[..|s| - 1]
  {
  }

  lemma Assoc<T>(a: seq<T>, b: seq<T>, c: seq<T>)
    ensures a + b + c == a + (b + c)
  {
  }
}

/** Bytes, Python slices and the integer packings of the struct module. */
module Bytes {
  /** The first number that does not fit 32 bits. */
  const WORD := 0x1_0000_0000

  type Byte = x: int | 0 <= x < 0x100
  type U16 = x: int | 0 <= x < 0x1_0000
  type U32 = x: int | 0 <= x < 0x1_0000_0000
  type U64 = x: int | 0 <= x < 0x1_0000_0000_0000_0000
  type Blob = seq<Byte>
  type Bytes16 = s: Blob | |s| == 16 witness [0, 0, 0, 0, 0, 0, 0, 0, 0, 0, 0, 0, 0, 0, 0, 0]

  function Min(a: nat, b: nat): nat { if a <= b then a else b }

  /** s[lo:hi] with Python's clamping. */
  function Slice(s: Blob, lo: nat, hi: nat): Blob {
    var h := Min(hi, |s|);
    if lo <= h then s[lo..h] else []
  }

  /** A shorter slice from the same offset is the start of the longer one. */
  lemma SliceStart(s: Blob, begin: nat, n: nat, m: nat)
    requires n <= m && |Slice(s, begin, begin + m)| >= n
    ensures Slice(s, begin, begin + n) == Slice(s, begin, begin + m)[0..n]
  {
    if begin <= |s| {
      var long := s[begin..Min(begin + m, |s|)];
      assert long[0..n] == s[begin..begin + n];
    }
  }

  /** The sequence after the Python slice assignment s[lo:hi] = t on a bytearray. */
  function SetSlice(s: Blob, lo: nat, hi: nat, t: Blob): Blob {
    var l := Min(lo, |s|);
    var h := Min(hi, |s|);
    s[..l] + t + s[if l <= h then h else l..]
  }

  /** n copies of the byte b. */
  function Fill(b: Byte, n: nat): (r: Blob)
    ensures |r| == n
    ensures forall i :: 0 <= i < n ==> r[i] == b
  {
    seq(n, _ => b)
  }

  /** 256 to the power of w. */
  function Limit(w: nat): nat {
    if w == 0 then 1 else 256 * Limit(w - 1)
  }

  lemma Limits()
    ensures Limit(1) == 0x100 && Limit(2) == 0x1_0000 && Limit(4) == 0x1_0000_0000
    ensures Limit(8) == 0x1_0000_0000_0000_0000
  {
    assert Limit(3) == 0x100_0000;
    assert Limit(6) == 0x1_0000_0000_0000;
  }

  /** Little-endian bytes of n, w of them. */
  function Le(n: nat, w: nat): (r: Blob)
    ensures |r| == w
  {
    if w == 0 then [] else [n % 256] + Le(n / 256, w - 1)
  }

  function FromLe(s: Blob): nat {
    if s == [] then 0 else s[0] + 256 * FromLe(s[1..])
  }

  /** Big-endian bytes of n, w of them. */
  function Be(n: nat, w: nat): (r: Blob)
    ensures |r| == w
  {
    if w == 0 then [] else Be(n / 256, w - 1) + [n % 256]
  }

  function FromBe(s: Blob): nat {
    if s == [] then 0 else 256 * FromBe(s[..|s| - 1]) + s[|s| - 1]
  }

  /** The order of the bytes: least significant first, and most significant first. */
  lemma {:induction false} ByteOrder(n: nat, w: nat)
    requires w > 0
    ensures Le(n, w)[0] == n % 256 && Le(n, w)[1..] == Le(n / 256, w - 1)
    ensures Be(n, w)[w - 1] == n % 256 && Be(n, w)[..w - 1] == Be(n / 256, w - 1)
    ensures FromLe(Le(n, w)) == FromBe(Be(n, w))
    decreases w
  {
    if w > 1 { ByteOrder(n / 256, w - 1); }
    assert Le(n, w)[1..] == Le(n / 256, w - 1);
    assert Be(n, w)[..w - 1] == Be(n / 256, w - 1);
  }

  lemma SmallLe(n: Byte)
    ensures Le(n, 4) == [n, 0, 0, 0]
  {
    assert Le(0, 1) == [0] && Le(0, 2) == [0] + Le(0, 1) && Le(0, 3) == [0] + Le(0, 2);
    assert Le(n, 4) == [n] + Le(0, 3);
  }

  lemma Digits(m: nat, d: Byte)
    ensures (256 * m + d) / 256 == m && (256 * m + d) % 256 == d
  {
  }

  lemma {:induction false} LeInverse(n: nat, w: nat)
    requires n < Limit(w)
    ensures FromLe(Le(n, w)) == n
  {
    if w != 0 {
      LeInverse(n / 256, w - 1);
      assert Le(n, w)[1..] == Le(n / 256, w - 1);
    }
  }

  lemma {:induction false} FromLeInverse(s: Blob)
    ensures FromLe(s) < Limit(|s|)
    ensures Le(FromLe(s), |s|) == s
  {
    if s != [] {
      FromLeInverse(s[1..]);
      var m := FromLe(s[1..]);
      Digits(m, s[0]);
      assert s == [s[0]] + s[1..];
    }
  }

  lemma {:induction false} BeInverse(n: nat, w: nat)
    requires n < Limit(w)
    ensures FromBe(Be(n, w)) == n
  {
    if w != 0 {
      BeInverse(n / 256, w - 1);
      assert Be(n, w)[..w - 1] == Be(n / 256, w - 1);
    }
  }

  lemma {:induction false} FromBeInverse(s: Blob)
    ensures FromBe(s) < Limit(|s|)
    ensures Be(FromBe(s), |s|) == s
  {
    if s != [] {
      var front := s[..|s| - 1];
      FromBeInverse(front);
      Digits(FromBe(front), s[|s| - 1]);
      assert s == front + [s[|s| - 1]];
    }
  }

  /** align_by_4: (val + 3) & ~3. */
  function Align4(n: nat): (r: nat)
    ensures r % 4 == 0 && n <= r < n + 4
  {
    (n + 3) / 4 * 4
  }

  lemma AlignedBegin(begin: nat, n: nat)
    requires begin % 4 == 0
    ensures Align4(begin + n) == begin + Align4(n)
  {
  }
}
