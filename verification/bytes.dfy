/** Bytes, powers of two, and the big- and little-endian readings of a byte
    sequence as an unsigned number, with their encoders. */
module Bytes {

  /** An unsigned 8-bit value, as `uint8_t` holds it. */
  type uint8 = x: int | 0 <= x < 256

  datatype Option<+T> = None | Some(value: T)

  /** What a one-byte `fread` at position `p` yields: the byte, or nothing at
      or past end of file (the destination is then left as it was and the
      position indicator does not move). */
  function ReadAt(file: seq<uint8>, p: int): Option<uint8>
  {
    if 0 <= p < |file| then Some(file[p]) else None
  }

  /** Where an `fseek` to the absolute position `target` leaves a position
      indicator that stood at `pos`: a target before the start of the file
      makes the seek fail and leaves the position unchanged; any other target,
      past end of file included, is taken. */
  function Seek(pos: nat, target: int): nat
  {
    if target < 0 then pos else target
  }

  /** Where a one-byte `fread` at `p` leaves the position indicator: one
      further on when it reads a byte, unchanged at or past end of file. */
  function AfterRead(file: seq<uint8>, p: nat): nat
  {
    if ReadAt(file, p).Some? then p + 1 else p
  }

  function Pow2(n: nat): (r: nat)
    ensures r >= 1
  {
    if n == 0 then 1 else 2 * Pow2(n - 1)
  }

  /** 256^n, the weight of the byte n places from the low end. */
  function Pow256(n: nat): nat
  {
    Pow2(8 * n)
  }

  lemma {:induction false} Pow2Add(a: nat, b: nat)
    ensures Pow2(a + b) == Pow2(a) * Pow2(b)
    decreases a
  {
    if a > 0 {
      Pow2Add(a - 1, b);
    }
  }

  lemma {:induction false} Pow2Monotone(a: nat, b: nat)
    requires a <= b
    ensures Pow2(a) <= Pow2(b)
    decreases b
  {
    if a < b {
      Pow2Monotone(a, b - 1);
    }
  }

  lemma Pow256Succ(n: nat)
    ensures Pow256(n + 1) == 256 * Pow256(n)
  {
    Pow2Add(8 * n, 8);
    assert Pow2(8) == 256;
  }

  /** `n` zero bytes: what a zero-initialised buffer holds. */
  function Zeros(n: nat): (z: seq<uint8>)
    ensures |z| == n
    ensures forall i :: 0 <= i < n ==> z[i] == 0
  {
    seq(n, _ => 0)
  }

  function Reverse<T>(s: seq<T>): (r: seq<T>)
    ensures |r| == |s|
    ensures forall i :: 0 <= i < |s| ==> r[i] == s[|s| - 1 - i]
  {
    if |s| == 0 then [] else Reverse(s[1..]) + [s[0]]
  }

  /** The number whose base-256 digits are `s`, most significant first. */
  function BeValue(s: seq<uint8>): nat
  {
    if |s| == 0 then 0 else BeValue(s[..|s| - 1]) * 256 + s[|s| - 1]
  }

  /** The number whose base-256 digits are `s`, least significant first. */
  function LeValue(s: seq<uint8>): nat
  {
    if |s| == 0 then 0 else s[0] + 256 * LeValue(s[1..])
  }

  /** The low `n` base-256 digits of `v`, most significant first. */
  function BeEncode(v: nat, n: nat): (s: seq<uint8>)
    ensures |s| == n
  {
    if n == 0 then [] else BeEncode(v / 256, n - 1) + [v % 256]
  }

  /** The low `n` base-256 digits of `v`, least significant first. */
  function LeEncode(v: nat, n: nat): (s: seq<uint8>)
    ensures |s| == n
  {
    if n == 0 then [] else [v % 256] + LeEncode(v / 256, n - 1)
  }

  /** An `n`-byte big-endian reading is below 256^n. */
  lemma {:induction false} BeValueBound(s: seq<uint8>)
    ensures BeValue(s) < Pow256(|s|)
    decreases |s|
  {
    if |s| > 0 {
      BeValueBound(s[..|s| - 1]);
      Pow256Succ(|s| - 1);
    }
  }

  /** The first byte is the most significant: BeValue(s) is the sum over i of
      s[i] * 256^(|s|-1-i). */
  lemma {:induction false} BeValueHead(s: seq<uint8>)
    requires |s| > 0
    ensures BeValue(s) == s[0] * Pow256(|s| - 1) + BeValue(s[1..])
    decreases |s|
  {
    if |s| == 1 {
      assert s[..0] == [];
      assert s[1..] == [];
    } else {
      var init := s[..|s| - 1];
      BeValueHead(init);
      assert init[1..] == s[1..][..|s[1..]| - 1];
      Pow256Succ(|s| - 2);
      AppendDigit(init[0], Pow256(|init| - 1), BeValue(init[1..]), s[|s| - 1]);
    }
  }

  /** Shifting a number left by one digit shifts each of its parts. */
  lemma AppendDigit(a: int, p: int, rest: int, d: int)
    ensures (a * p + rest) * 256 + d == a * (p * 256) + (rest * 256 + d)
  {
  }

  lemma Mul3(a: int, b: int, c: int)
    ensures a * b * c == a * (c * b)
  {
  }

  /** Appending zero bytes multiplies a big-endian reading by 256 per byte. */
  lemma {:induction false} BeValueZeros(s: seq<uint8>, k: nat)
    ensures BeValue(s + Zeros(k)) == BeValue(s) * Pow256(k)
    decreases k
  {
    if k > 0 {
      var u := s + Zeros(k - 1);
      assert s + Zeros(k) == u + [0];
      assert (u + [0])[..|u|] == u;
      BeValueZeros(s, k - 1);
      Pow256Succ(k - 1);
      Mul3(BeValue(s), Pow256(k - 1), 256);
    } else {
      assert s + Zeros(k) == s;
    }
  }

  /** Reading the reversed bytes big-endian is reading the bytes little-endian. */
  lemma {:induction false} BeValueReverse(s: seq<uint8>)
    ensures BeValue(Reverse(s)) == LeValue(s)
    decreases |s|
  {
    if |s| > 0 {
      var r := Reverse(s);
      assert r[..|r| - 1] == Reverse(s[1..]);
      BeValueReverse(s[1..]);
    }
  }

  /** Encoding a big-endian reading at its own width gives the bytes back. */
  lemma {:induction false} BeEncodeValue(s: seq<uint8>)
    ensures BeEncode(BeValue(s), |s|) == s
    decreases |s|
  {
    if |s| > 0 {
      var init := s[..|s| - 1];
      BeEncodeValue(init);
      assert BeValue(s) / 256 == BeValue(init);
      assert BeValue(s) % 256 == s[|s| - 1];
      assert s == init + [s[|s| - 1]];
    }
  }

  /** Decoding the encoding of a value that fits in `n` bytes gives it back. */
  lemma {:induction false} BeValueEncode(v: nat, n: nat)
    requires v < Pow256(n)
    ensures BeValue(BeEncode(v, n)) == v
    decreases n
  {
    if n > 0 {
      var e := BeEncode(v, n);
      assert e[..n - 1] == BeEncode(v / 256, n - 1);
      Pow256Succ(n - 1);
      assert v / 256 < Pow256(n - 1);
      BeValueEncode(v / 256, n - 1);
    }
  }

  /** Encoding a little-endian reading at its own width gives the bytes back. */
  lemma {:induction false} LeEncodeValue(s: seq<uint8>)
    ensures LeEncode(LeValue(s), |s|) == s
    decreases |s|
  {
    if |s| > 0 {
      LeEncodeValue(s[1..]);
      assert LeValue(s) / 256 == LeValue(s[1..]);
      assert LeValue(s) % 256 == s[0];
      assert s == [s[0]] + s[1..];
    }
  }

  /** Decoding the little-endian encoding of a value that fits in `n` bytes
      gives it back. */
  lemma {:induction false} LeValueEncode(v: nat, n: nat)
    requires v < Pow256(n)
    ensures LeValue(LeEncode(v, n)) == v
    decreases n
  {
    if n > 0 {
      var e := LeEncode(v, n);
      assert e[1..] == LeEncode(v / 256, n - 1);
      Pow256Succ(n - 1);
      assert v / 256 < Pow256(n - 1);
      LeValueEncode(v / 256, n - 1);
    }
  }
}
