/**
 Shared vocabulary: bytes, JavaScript strings as UTF-16 code units, thrown errors as
 values, clamped slices, and the little-endian reading of a byte string.
 */
module Basics {

  type Byte = x: int | 0 <= x < 256
  type Bytes = seq<Byte>

  /** A JavaScript string is a sequence of UTF-16 code units, surrogates included. */
  type CodeUnit = x: int | 0 <= x < 0x10000
  type JsString = seq<CodeUnit>

  datatype Option<+T> = None | Some(value: T)

  /** Every exception the modelled code raises on its own, by cause. */
  datatype Error =
    | OutOfBounds          // a number does not fit the requested width
    | EarlyEnd             // a read past the end of the input
    | InvalidFormat        // a byte or string outside the accepted set
    | UnknownTag           // a discriminant no decoder branch accepts
    | FieldOrder           // call-table fields added out of order
    | MissingField         // a required field is absent
    | DuplicateKey         // a key occurs twice in a map
    | NotEmpty             // Unit decoded from a non-empty input
    | InvalidHash          // a stored hash is not the hash of what it stands for
    | InvalidSignature     // an approval does not verify
    | AlreadySigned        // an argument added after the first approval
    | InvalidOrigin        // a wrapper without exactly one origin

  datatype Result<+T> = Ok(value: T) | Err(error: Error) {
    predicate IsFailure() {
      Err?
    }

    function PropagateFailure<U>(): Result<U>
      requires Err?
    {
      Err(error)
    }

    function Extract(): T
      requires Ok?
    {
      value
    }
  }

  // ---------------------------------------------------------------- slices

  function Min(a: int, b: int): int {
    if a <= b then a else b
  }

  /** `b.slice(from, to)` and `b.subarray(from, to)` for non-negative bounds: both are clamped. */
  function Slice(b: Bytes, from: nat, to: nat): (s: Bytes)
    ensures from <= to <= |b| ==> s == b[from..to]
  {
    var hi := Min(to, |b|);
    if from <= hi then b[from..hi] else []
  }

  function Drop(b: Bytes, from: nat): (s: Bytes)
    ensures from <= |b| ==> s == b[from..]
  {
    if from <= |b| then b[from..] else []
  }

  function Zeros(n: nat): (z: Bytes)
    ensures |z| == n
    ensures forall i :: 0 <= i < n ==> z[i] == 0
  {
    seq(n, i => 0)
  }

  function Reverse<T>(s: seq<T>): (r: seq<T>)
    ensures |r| == |s|
  {
    if s == [] then [] else Reverse(s[1..]) + [s[0]]
  }

  lemma {:induction false} ReverseAppend<T>(a: seq<T>, x: T)
    ensures Reverse(a + [x]) == [x] + Reverse(a)
  {
    if a == [] {
    } else {
      assert (a + [x])[1..] == a[1..] + [x];
      ReverseAppend(a[1..], x);
    }
  }

  // ---------------------------------------------------------------- powers

  function Pow256(k: nat): (p: nat)
    ensures p >= 1
  {
    if k == 0 then 1 else 256 * Pow256(k - 1)
  }

  function Pow2(n: nat): (p: nat)
    ensures p >= 1
  {
    if n == 0 then 1 else 2 * Pow2(n - 1)
  }

  lemma {:induction false} Pow2OfBytes(k: nat)
    ensures Pow2(8 * k) == Pow256(k)
  {
    if k > 0 {
      var n := 8 * k;
      assert Pow2(n) == 2 * Pow2(n - 1) == 4 * Pow2(n - 2) == 8 * Pow2(n - 3);
      assert Pow2(n - 3) == 2 * Pow2(n - 4) == 4 * Pow2(n - 5) == 8 * Pow2(n - 6);
      assert Pow2(n - 6) == 2 * Pow2(n - 7) == 4 * Pow2(n - 8);
      Pow2OfBytes(k - 1);
    }
  }

  lemma {:induction false} Pow256Monotone(j: nat, k: nat)
    requires j <= k
    ensures Pow256(j) <= Pow256(k)
  {
    if j < k {
      Pow256Monotone(j, k - 1);
    }
  }

  lemma SmallPowers()
    ensures Pow256(1) == 0x100
    ensures Pow256(2) == 0x1_0000
    ensures Pow256(4) == 0x1_0000_0000
    ensures Pow256(8) == 0x1_0000_0000_0000_0000
  {
    assert Pow256(2) == 256 * Pow256(1);
    assert Pow256(3) == 256 * Pow256(2);
    assert Pow256(4) == 256 * Pow256(3);
    assert Pow256(5) == 256 * Pow256(4);
    assert Pow256(6) == 256 * Pow256(5);
    assert Pow256(7) == 256 * Pow256(6);
    assert Pow256(8) == 256 * Pow256(7);
  }

  // ------------------------------------------------------- little endian

  /** The number a little-endian byte string stands for. */
  function FromLE(b: Bytes): (n: nat)
  {
    if b == [] then 0 else b[0] + 256 * FromLE(b[1..])
  }

  /** The low k bytes of n, least significant first; `setUint32` and friends wrap the same way. */
  function LE(n: nat, k: nat): (b: Bytes)
    ensures |b| == k
  {
    if k == 0 then [] else [n % 256] + LE(n / 256, k - 1)
  }

  lemma {:induction false} FromLEBound(b: Bytes)
    ensures FromLE(b) < Pow256(|b|)
  {
    if b != [] {
      FromLEBound(b[1..]);
    }
  }

  /** Reading back k written bytes gives the number, when it fits. */
  lemma {:induction false} FromLEOfLE(n: nat, k: nat)
    requires n < Pow256(k)
    ensures FromLE(LE(n, k)) == n
  {
    if k > 0 {
      FromLEOfLE(n / 256, k - 1);
      assert LE(n, k)[1..] == LE(n / 256, k - 1);
    }
  }

  /** Writing back what was read gives the bytes. */
  lemma {:induction false} LEOfFromLE(b: Bytes)
    ensures LE(FromLE(b), |b|) == b
  {
    if b != [] {
      LEOfFromLE(b[1..]);
      var n := FromLE(b);
      assert n % 256 == b[0] && n / 256 == FromLE(b[1..]);
    }
  }

  /** Appending the high byte adds its weight. */
  lemma {:induction false} FromLEAppend(b: Bytes, x: Byte)
    ensures FromLE(b + [x]) == FromLE(b) + x * Pow256(|b|)
  {
    if b == [] {
      assert ([] + [x])[1..] == [];
    } else {
      FromLEAppend(b[1..], x);
      assert (b + [x])[1..] == b[1..] + [x];
      var p := Pow256(|b| - 1);
      assert 256 * (x * p) == x * (256 * p);
    }
  }

  // -------------------------------------------------------- concatenation

  function Concat(parts: seq<Bytes>): (b: Bytes)
  {
    if parts == [] then [] else parts[0] + Concat(parts[1..])
  }

  lemma {:induction false} ConcatAppend(parts: seq<Bytes>, last: Bytes)
    ensures Concat(parts + [last]) == Concat(parts) + last
  {
    if parts == [] {
      assert Concat([last]) == last + Concat([last][1..]);
    } else {
      assert (parts + [last])[1..] == parts[1..] + [last];
      ConcatAppend(parts[1..], last);
    }
  }

  lemma ConcatSizes(a: Bytes, b: Bytes, c: Bytes, d: Bytes)
    ensures |Concat([a])| == |a|
    ensures |Concat([a, b])| == |a| + |b|
    ensures |Concat([a, b, c])| == |a| + |b| + |c|
    ensures |Concat([a, b, c, d])| == |a| + |b| + |c| + |d|
  {
    ConcatAppend([], a);
    ConcatAppend([a], b);
    ConcatAppend([a, b], c);
    ConcatAppend([a, b, c], d);
    assert [] + [a] == [a] && [a] + [b] == [a, b] && [a, b] + [c] == [a, b, c] && [a, b, c] + [d] == [a, b, c, d];
  }

  lemma Reassociate(a: Bytes, b: Bytes, c: Bytes, d: Bytes)
    ensures a + b + c + d == a + (b + (c + d))
  {
  }

  lemma Regroup(a: Bytes, b: Bytes, c: Bytes, d: Bytes, e: Bytes)
    ensures a + b + c + d + e == a + b + (c + (d + e))
  {
    Reassociate(a + b, c, d, e);
  }

  /** A common prefix cancels. */
  lemma CancelPrefix(p: Bytes, a: Bytes, b: Bytes)
    requires p + a == p + b
    ensures a == b
  {
    assert (p + a)[|p|..] == a;
    assert (p + b)[|p|..] == b;
  }

  /** Prefixes of the same length split equal strings the same way. */
  lemma SplitSame(p: Bytes, a: Bytes, q: Bytes, b: Bytes)
    requires p + a == q + b
    requires |p| == |q|
    ensures p == q && a == b
  {
    assert (p + a)[..|p|] == p && (q + b)[..|q|] == q;
    assert (p + a)[|p|..] == a && (q + b)[|q|..] == b;
  }
}
