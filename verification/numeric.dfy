/** `getNumeric` (ByteRead_debug.cpp): decode a 1- to 4-byte integer at an
    offset of a file, big- or little-endian, signed or unsigned.

    The file is an immutable byte sequence and the position indicator an index
    into it. The returned `unsigned long` is a 64-bit word (a nat below 2^64);
    `printf("%ld")` shows it as `ToSigned64` of that word. */
module Numeric {
  import opened Bytes

  const LITTLE: int := 0
  const BIG: int := 1
  const SIGNED: int := 0
  const UNSIGNED: int := 1

  /** 2^64: `unsigned long` is 64 bits wide on an LP64 platform. */
  const ULONG_MODULUS: nat := 0x1_0000_0000_0000_0000
  /** 2^63, the weight of the sign bit of an `unsigned long`. */
  const ULONG_SIGN_BIT: nat := 0x8000_0000_0000_0000
  /** The initial value of `mask` in the sign extension. */
  const MASK32: nat := 0xFFFF_FFFF

  /** A 64-bit word read as two's complement, as `%ld` prints it. */
  function ToSigned64(w: nat): int
    requires w < ULONG_MODULUS
  {
    if w < ULONG_SIGN_BIT then w else w - ULONG_MODULUS
  }

  /** `a - b` on `unsigned long`: the difference modulo 2^64. */
  function Subtract64(a: nat, b: nat): nat
  {
    (a - b) % ULONG_MODULUS
  }

  /** `~x` on `unsigned long`. */
  function Complement64(x: nat): nat
    requires x < ULONG_MODULUS
  {
    ULONG_MODULUS - 1 - x
  }

  /** The bytes of the file from `offset` up to `offset + size` that exist. */
  function Available(file: seq<uint8>, offset: nat, size: nat): (a: seq<uint8>)
    ensures |a| <= size
  {
    if offset >= |file| then []
    else if offset + size <= |file| then file[offset..offset + size]
    else file[offset..]
  }

  /** The big-endian fetch loop: from position `pos`, fread one byte into each
      of buf[i], ..., buf[|buf|-1]. A read at end of file fails, leaves its
      byte as it was and does not advance the position. */
  function BigEndianLoop(file: seq<uint8>, pos: nat, i: nat, buf: seq<uint8>): (r: seq<uint8>)
    requires i <= |buf|
    ensures |r| == |buf|
    ensures r[..i] == buf[..i]
    ensures forall j :: i <= j < |buf| ==>
              r[j] == (if pos + (j - i) < |file| then file[pos + (j - i)] else buf[j])
    decreases |buf| - i
  {
    if i == |buf| then buf
    else
      match ReadAt(file, pos)
      case Some(b) => BigEndianLoop(file, pos + 1, i + 1, buf[i := b])
      case None => BigEndianLoop(file, pos, i + 1, buf)
  }

  /** The big-endian buffer, read forward from position `pos` into a
      zero-filled buffer: the bytes that exist, then zeros for the positions
      at or past end of file. */
  function BigEndianBuffer(file: seq<uint8>, pos: nat, size: nat): (buf: seq<uint8>)
    ensures buf == Available(file, pos, size) + Zeros(size - |Available(file, pos, size)|)
  {
    var buf := BigEndianLoop(file, pos, 0, Zeros(size));
    var a := Available(file, pos, size);
    assert forall j :: 0 <= j < size ==> buf[j] == (a + Zeros(size - |a|))[j];
    buf
  }

  /** The byte at position `x`, where a position before the start of the
      file stands for the first byte (0 when the file is empty). */
  function ByteOrFirst(file: seq<uint8>, x: int): uint8
    requires x < |file|
  {
    if |file| == 0 then 0 else if x < 0 then file[0] else file[x]
  }

  /** The `k`-th byte the little-endian loop fetches when it starts at
      position `q`, in closed form. From at or before end of file it walks
      backwards one byte per iteration; at the start of the file the first
      seek back fails, so the first byte is read again and again. From `d`
      bytes past end of file, each of the first `(d + 1) / 2` iterations
      reads nothing (the failed read does not move the position, so the two
      seeks back move it by two) and leaves its 0, and the walk goes on from
      end of file or the byte before it. */
  function LittleByte(file: seq<uint8>, q: nat, k: nat): uint8
  {
    if q <= |file| then ByteOrFirst(file, q - 1 - k)
    else
      var m := (q - |file| + 1) / 2;
      if k < m then 0 else ByteOrFirst(file, q - 2 * m - 1 - (k - m))
  }

  /** The `size` bytes the little-endian loop fetches from position `q`, in
      the order it fetches them. */
  function LittleBytes(file: seq<uint8>, q: nat, size: nat): (s: seq<uint8>)
    ensures |s| == size
    ensures forall k :: 0 <= k < size ==> s[k] == LittleByte(file, q, k)
  {
    seq(size, k requires 0 <= k < size => LittleByte(file, q, k))
  }

  /** Where one iteration of the little-endian loop (lines 78-80) leaves a
      position indicator that stood at `pos`: seek back one, read one byte,
      seek back one again. */
  function LittleNext(file: seq<uint8>, pos: nat): nat
  {
    var p := Seek(pos, pos - 1);
    Seek(AfterRead(file, p), AfterRead(file, p) - 1)
  }

  /** One iteration of the little-endian loop from position `pos`: it
      fetches byte 0 of the walk from `pos`, and the walk from the position it
      ends at is the rest of the walk from `pos`. */
  lemma LittleStep(file: seq<uint8>, pos: nat, p: nat, next: nat)
    requires p == Seek(pos, pos - 1)
    requires next == Seek(AfterRead(file, p), AfterRead(file, p) - 1)
    ensures p < |file| ==> file[p] == LittleByte(file, pos, 0)
    ensures p >= |file| ==> LittleByte(file, pos, 0) == 0
    ensures forall k: nat :: LittleByte(file, next, k) == LittleByte(file, pos, k + 1)
  {
    if pos > |file| {
      var m := (pos - |file| + 1) / 2;
      assert m >= 1;
      forall k: nat
        ensures LittleByte(file, next, k) == LittleByte(file, pos, k + 1)
      {
        if next > |file| {
          assert next == pos - 2;
          assert (next - |file| + 1) / 2 == m - 1;
        }
      }
    }
  }

  /** The little-endian fetch loop. At the top of each iteration the position
      is `pos`; the code seeks back one byte, reads it (which moves the
      position forward again if there was a byte) and seeks back once more. */
  function LittleEndianLoop(file: seq<uint8>, pos: nat, i: nat, buf: seq<uint8>): (r: seq<uint8>)
    requires i <= |buf|
    requires forall j :: i <= j < |buf| ==> buf[j] == 0
    ensures |r| == |buf|
    ensures r[..i] == buf[..i]
    ensures forall j :: i <= j < |buf| ==> r[j] == LittleByte(file, pos, j - i)
    decreases |buf| - i
  {
    if i == |buf| then buf
    else
      var p := Seek(pos, pos - 1);                     // fseek(f, -1, SEEK_CUR)
      var read := ReadAt(file, p);                     // fread(&buffer[i], 1, 1, f)
      var filled := if read.Some? then buf[i := read.value] else buf;
      var next := LittleNext(file, pos);               // fseek(f, -1, SEEK_CUR)
      LittleStep(file, pos, p, next);
      LittleEndianLoop(file, next, i + 1, filled)
  }

  /** The buffer `getNumeric` fills, given the position `start` the file was
      at: little-endian seeks to `offset` bytes before end of file (a seek
      before the start fails and leaves `start`), then fetches backwards;
      big-endian seeks to `offset` (a negative one fails and leaves `start`)
      and reads forward; any other `endian` leaves the buffer all zeros. */
  function Fetch(file: seq<uint8>, start: nat, offset: int, size: nat, endian: int): (buf: seq<uint8>)
    ensures |buf| == size
  {
    if endian == LITTLE then LittleEndianLoop(file, Seek(start, |file| - offset), 0, Zeros(size))
    else if endian == BIG then BigEndianBuffer(file, Seek(start, offset), size)
    else Zeros(size)
  }

  /** Where the big-endian loop leaves the position indicator after `n`
      one-byte reads from `pos`: each read that finds a byte moves it on one,
      so it ends after the bytes that exist. */
  function BigEndianExit(file: seq<uint8>, pos: nat, n: nat): (e: nat)
    ensures e == pos + |Available(file, pos, n)|
    decreases n
  {
    if n == 0 then pos else BigEndianExit(file, AfterRead(file, pos), n - 1)
  }

  /** `q` moved back by `d`, stopping at the start of the file. */
  function Back(q: nat, d: nat): nat
  {
    if q >= d then q - d else 0
  }

  /** Where the little-endian loop leaves the position after `n` iterations
      from `q`, in closed form. From at or before end of file it moves back
      one per iteration and stays at the start of the file once there. From
      `d` bytes past end of file the first `(d + 1) / 2` iterations read
      nothing and move it back by two each. */
  function LittleEnd(file: seq<uint8>, q: nat, n: nat): nat
  {
    if q <= |file| then Back(q, n)
    else
      var m := (q - |file| + 1) / 2;
      if n <= m then Back(q, 2 * n) else Back(Back(q, 2 * m), n - m)
  }

  /** One iteration moves the position to where the rest of the walk
      continues the closed form. */
  lemma LittleExitStep(file: seq<uint8>, pos: nat, n: nat)
    ensures LittleEnd(file, LittleNext(file, pos), n) == LittleEnd(file, pos, n + 1)
  {
    var next := LittleNext(file, pos);
    if pos <= |file| {
      assert next == Back(pos, 1);
    } else {
      var m := (pos - |file| + 1) / 2;
      assert next == Back(pos, 2);
      if next > |file| {
        assert (next - |file| + 1) / 2 == m - 1;
      } else {
        assert m == 1;
      }
    }
  }

  /** Where the little-endian loop leaves the position after `n` iterations
      from `pos`, following its seeks and reads. */
  function LittleEndianExit(file: seq<uint8>, pos: nat, n: nat): (e: nat)
    ensures e == LittleEnd(file, pos, n)
    decreases n
  {
    if n == 0 then pos
    else
      LittleExitStep(file, pos, n - 1);
      LittleEndianExit(file, LittleNext(file, pos), n - 1)
  }

  /** The assembly loop from iteration `i` on: `ret |= buf[i] << shiftBy`,
      then `shiftBy -= 8`. The low `shiftBy + 8` bits of `ret` are still
      clear (ret is a multiple of 2^(shiftBy + 8)), so the `|` adds. */
  function AssembleFrom(buf: seq<uint8>, i: nat, shiftBy: int, ret: nat): (r: nat)
    requires i <= |buf|
    requires shiftBy == 8 * (|buf| - 1 - i)
    requires ret == BeValue(buf[..i]) * Pow256(|buf| - i)
    ensures r == BeValue(buf)
    decreases |buf| - i
  {
    if i == |buf| then
      assert buf[..i] == buf;
      ret
    else
      var k := |buf| - 1 - i;
      Pow256Succ(k);
      assert buf[..i + 1][..i] == buf[..i];
      ShiftAdd(BeValue(buf[..i]), buf[i], Pow256(k));
      AssembleFrom(buf, i + 1, shiftBy - 8, ret + buf[i] * Pow2(shiftBy))
  }

  lemma ShiftAdd(v: int, b: int, p: int)
    ensures v * (256 * p) + b * p == (v * 256 + b) * p
  {
  }

  /** Lines 89-93: `buffer[0]` lands in the most significant byte. */
  function Assemble(buf: seq<uint8>): (ret: nat)
    ensures ret == BeValue(buf)
    ensures ret < Pow256(|buf|)
  {
    BeValueBound(buf);
    AssembleFrom(buf, 0, 8 * |buf| - 8, 0)
  }

  /** 0xFFFFFFFF shifted right to the field width is the all-ones field. */
  lemma MaskIsAllOnes(size: int)
    requires 1 <= size <= 4
    ensures MASK32 / Pow2(32 - 8 * size) == Pow256(size) - 1
  {
    KnownPowers();
  }

  lemma KnownPowers()
    ensures Pow2(0) == 1 && Pow2(8) == 0x100 && Pow2(16) == 0x1_0000
    ensures Pow2(24) == 0x100_0000 && Pow2(32) == 0x1_0000_0000
  {
    assert Pow2(8) == 0x100;
    Pow2Add(8, 8);
    Pow2Add(16, 8);
    Pow2Add(16, 16);
  }

  /** Facts about the field width: the sign bit weighs half the field, and
      the field fits in 32 bits. */
  lemma FieldWidth(size: int)
    requires 1 <= size <= 4
    ensures Pow256(size) == 2 * Pow2(8 * size - 1)
    ensures Pow256(size) <= 0x1_0000_0000
  {
    Pow2Add(8 * size - 1, 1);
    Pow2Monotone(8 * size, 32);
    KnownPowers();
  }

  lemma ModSmall(x: int, m: int)
    requires 0 <= x < m
    ensures x % m == x
  {
  }

  lemma ModShift(x: int, m: int)
    requires 0 <= x < m
    ensures (x - m) % m == x
  {
  }

  /** The signed path on a field whose sign bit is set, for a field of
      weight `w` whose sign bit weighs `h`: with `mask == w - 1`,
      `~(mask - ret)` read as a signed word is `ret - w`, which lies in
      [-h, 0) and agrees with `ret` modulo `w`. */
  lemma NegativeWord(ret: nat, w: nat, h: nat)
    requires w == 2 * h && w <= 0x1_0000_0000
    requires h <= ret < w
    ensures Subtract64(w - 1, ret) == w - 1 - ret
    ensures Complement64(w - 1 - ret) == ULONG_MODULUS - w + ret
  {
    ModSmall(w - 1 - ret, ULONG_MODULUS);
  }

  /** The top bit of a `2h`-bounded value is set exactly when it is at least `h`. */
  lemma TopBit(x: nat, h: nat)
    requires h > 0 && x < 2 * h
    ensures x / h == 1 <==> h <= x
  {
  }

  /** What the sign extension promises, for a field of weight `w` whose
      sign bit weighs `h`, given the word `r` it returns. */
  lemma SignExtendFacts(ret: nat, w: nat, h: nat, kind: int, r: nat)
    requires w == 2 * h && w <= 0x1_0000_0000 && ret < w
    requires r == if kind == SIGNED && h <= ret then ULONG_MODULUS - w + ret else ret
    ensures r < ULONG_MODULUS
    ensures kind != SIGNED ==> r == ret
    ensures kind == SIGNED ==> -(h as int) <= ToSigned64(r) < h
    ensures ToSigned64(r) % w == ret
  {
    if kind == SIGNED && h <= ret {
      ModShift(ret, w);
    } else {
      ModSmall(ret, w);
    }
  }

  /** Lines 98-101, a field whose sign bit is set: `mask` has the low
      `8*size` bits set, and `~(mask - ret)` is the 64-bit two's-complement
      word of `ret - 256^size`. */
  function ExtendNegative(ret: nat, size: int): (r: nat)
    requires 1 <= size <= 4
    requires Pow2(8 * size - 1) <= ret < Pow256(size)
    ensures r == ULONG_MODULUS - Pow256(size) + ret
  {
    var mask := MASK32 / Pow2(32 - 8 * size);
    MaskIsAllOnes(size);
    FieldWidth(size);
    NegativeWord(ret, Pow256(size), Pow2(8 * size - 1));
    Complement64(Subtract64(mask, ret))
  }

  /** Lines 95-103: when `kind` is SIGNED and the sign bit of the
      `8*size`-bit field is set, the field is sign-extended into the 64-bit
      word; otherwise the field is returned as it is. */
  function SignExtend(ret: nat, size: int, kind: int): (r: nat)
    requires 1 <= size <= 4
    requires ret < Pow256(size)
    ensures r < ULONG_MODULUS
    ensures kind != SIGNED ==> r == ret
    ensures kind == SIGNED ==> -(Pow2(8 * size - 1) as int) <= ToSigned64(r) < Pow2(8 * size - 1)
    ensures ToSigned64(r) % Pow256(size) == ret
  {
    var sizeInBits := 8 * size;
    var w, h := Pow256(size), Pow2(sizeInBits - 1);
    FieldWidth(size);
    TopBit(ret, h);
    if kind == SIGNED && ret / h == 1 then
      var r := ExtendNegative(ret, size);
      SignExtendFacts(ret, w, h, kind, r);
      r
    else
      SignExtendFacts(ret, w, h, kind, ret);
      ret
  }

  /** The value the bytes denote, stated apart from the fetch loops: the
      position the seek lands on, given the position `start` the file was at;
      big-endian, the bytes from there with the missing ones counted as zero;
      little-endian, the bytes of the backward walk from there, the first one
      fetched the most significant; 0 for any other `endian`. */
  function FieldValue(file: seq<uint8>, start: nat, offset: int, size: nat, endian: int): nat
  {
    if endian == LITTLE then BeValue(LittleBytes(file, Seek(start, |file| - offset), size))
    else if endian == BIG then
      var a := Available(file, Seek(start, offset), size);
      BeValue(a) * Pow256(size - |a|)
    else 0
  }

  /** The byte-order facts behind `getNumeric`: the fetched buffer read
      most-significant-first is the field value. */
  lemma FetchValue(file: seq<uint8>, start: nat, offset: int, size: nat, endian: int)
    ensures BeValue(Fetch(file, start, offset, size, endian)) == FieldValue(file, start, offset, size, endian)
  {
    if endian == LITTLE {
      assert Fetch(file, start, offset, size, endian) == LittleBytes(file, Seek(start, |file| - offset), size);
    } else if endian == BIG {
      var a := Available(file, Seek(start, offset), size);
      BeValueZeros(a, size - |a|);
    } else {
      BeValueZeros([], size);
      assert [] + Zeros(size) == Zeros(size);
    }
  }

  /** getNumeric(f, offset, size, type, endian), lines 69-105, with `start`
      the position indicator of `f` on entry. The result agrees with the
      field value modulo 2^(8*size); unsigned it is that value, signed it is
      the two's-complement reading of the field. */
  function GetNumeric(file: seq<uint8>, start: nat, offset: int, size: int, kind: int, endian: int): (r: nat)
    requires 1 <= size <= 4
    ensures r < ULONG_MODULUS
    ensures kind != SIGNED ==> r == FieldValue(file, start, offset, size, endian) < Pow256(size)
    ensures kind == SIGNED ==> -(Pow2(8 * size - 1) as int) <= ToSigned64(r) < Pow2(8 * size - 1)
    ensures ToSigned64(r) % Pow256(size) == FieldValue(file, start, offset, size, endian)
  {
    var buffer := Fetch(file, start, offset, size, endian);
    var ret := Assemble(buffer);
    FetchValue(file, start, offset, size, endian);
    SignExtend(ret, size, kind)
  }

  /** The position getNumeric leaves `f` at, which is where the next call
      on the same file starts: after the bytes read big-endian, after the
      backward walk little-endian, and where it was for any other `endian`,
      since no seek is made then. */
  function ExitPosition(file: seq<uint8>, start: nat, offset: int, size: nat, endian: int): (e: nat)
    ensures endian == BIG ==> e == Seek(start, offset) + |Available(file, Seek(start, offset), size)|
    ensures endian == LITTLE ==> e == LittleEnd(file, Seek(start, |file| - offset), size)
    ensures endian != LITTLE && endian != BIG ==> e == start
  {
    if endian == LITTLE then LittleEndianExit(file, Seek(start, |file| - offset), size)
    else if endian == BIG then BigEndianExit(file, Seek(start, offset), size)
    else start
  }

  /** Two reads whose fields have the same value return the same word. */
  lemma SignExtendDetermined(file: seq<uint8>, s1: nat, o1: int, e1: int, s2: nat, o2: int, e2: int,
                             size: int, kind: int)
    requires 1 <= size <= 4
    requires FieldValue(file, s1, o1, size, e1) == FieldValue(file, s2, o2, size, e2)
    ensures GetNumeric(file, s1, o1, size, kind, e1) == GetNumeric(file, s2, o2, size, kind, e2)
  {
    FetchValue(file, s1, o1, size, e1);
    FetchValue(file, s2, o2, size, e2);
  }

  /** When the seek succeeds, where the file was before does not matter. */
  lemma PriorPositionIrrelevant(file: seq<uint8>, s1: nat, s2: nat, offset: int, size: int, kind: int, endian: int)
    requires 1 <= size <= 4
    requires endian == BIG ==> 0 <= offset
    requires endian == LITTLE ==> offset <= |file|
    ensures GetNumeric(file, s1, offset, size, kind, endian) == GetNumeric(file, s2, offset, size, kind, endian)
  {
    SignExtendDetermined(file, s1, offset, endian, s2, offset, endian, size, kind);
  }

  /** A seek that fails (a negative big-endian offset, a little-endian offset
      beyond the length of the file) reads from wherever the file was. */
  lemma FailedSeek(file: seq<uint8>, start: nat, offset: int, size: int, kind: int)
    requires 1 <= size <= 4
    ensures offset < 0 ==>
              GetNumeric(file, start, offset, size, kind, BIG) == GetNumeric(file, start, start, size, kind, BIG)
    ensures offset > |file| ==>
              GetNumeric(file, start, offset, size, kind, LITTLE)
                == GetNumeric(file, start, |file| - start, size, kind, LITTLE)
  {
    if offset < 0 {
      SignExtendDetermined(file, start, offset, BIG, start, start, BIG, size, kind);
    }
    if offset > |file| {
      SignExtendDetermined(file, start, offset, LITTLE, start, |file| - start, LITTLE, size, kind);
    }
  }

  /** Big-endian, in range: the bytes at `offset` are read in file order, the
      first one most significant. */
  lemma BigEndianInRange(file: seq<uint8>, start: nat, offset: int, size: int)
    requires 1 <= size <= 4
    requires 0 <= offset && offset + size <= |file|
    ensures GetNumeric(file, start, offset, size, UNSIGNED, BIG) == BeValue(file[offset..offset + size])
    ensures GetNumeric(file, start, offset, size, UNSIGNED, BIG)
              == file[offset] * Pow256(size - 1) + BeValue(file[offset + 1..offset + size])
  {
    var s := file[offset..offset + size];
    BigEndianField(file, start, offset, size);
    BeValueHead(s);
    assert s[1..] == file[offset + 1..offset + size];
  }

  lemma BigEndianField(file: seq<uint8>, start: nat, offset: int, size: int)
    requires 1 <= size <= 4
    requires 0 <= offset && offset + size <= |file|
    ensures FieldValue(file, start, offset, size, BIG) == BeValue(file[offset..offset + size])
  {
    assert Seek(start, offset) == offset;
    assert Available(file, offset, size) == file[offset..offset + size];
    assert Pow256(0) == 1;
  }

  /** Big-endian: a position at or past end of file contributes a zero byte,
      a position before it contributes the file's byte. */
  lemma BigEndianZeroFill(file: seq<uint8>, start: nat, offset: int, size: int, i: int)
    requires 1 <= size <= 4 && 0 <= offset && 0 <= i < size
    ensures offset + i >= |file| ==> Fetch(file, start, offset, size, BIG)[i] == 0
    ensures offset + i < |file| ==> Fetch(file, start, offset, size, BIG)[i] == file[offset + i]
  {
    var a := Available(file, offset, size);
    assert i < |a| <==> offset + i < |file|;
  }

  /** Big-endian entirely past end of file reads as 0, signed or not. */
  lemma BigEndianPastEnd(file: seq<uint8>, start: nat, offset: int, size: int, kind: int)
    requires 1 <= size <= 4
    requires |file| <= offset
    ensures GetNumeric(file, start, offset, size, kind, BIG) == 0
  {
    assert FieldValue(file, start, offset, size, BIG) == 0;
  }

  /** Little-endian, in range: the i-th fetched byte is the one
      `offset + 1 + i` bytes before end of file, so the value is a
      little-endian reading of the `size` bytes that end `offset` bytes before
      end of file. */
  lemma LittleEndianRead(file: seq<uint8>, start: nat, offset: int, size: int)
    requires 1 <= size <= 4
    requires 0 <= offset && offset + size <= |file|
    ensures forall i :: 0 <= i < size ==>
              Fetch(file, start, offset, size, LITTLE)[i] == file[|file| - offset - 1 - i]
    ensures GetNumeric(file, start, offset, size, UNSIGNED, LITTLE)
              == LeValue(file[|file| - offset - size..|file| - offset])
  {
    var window := file[|file| - offset - size..|file| - offset];
    var q := |file| - offset;
    assert LittleBytes(file, q, size) == Reverse(window);
    BeValueReverse(window);
  }

  /** Little-endian past the start of the file: once the backward walk
      reaches the first byte, the seek back fails and every further byte
      fetched is the first byte again. */
  lemma LittleEndianPastStart(file: seq<uint8>, start: nat, offset: int, size: int)
    requires 1 <= size <= 4
    requires 0 <= offset < |file| < offset + size
    ensures forall i :: |file| - offset <= i < size ==> Fetch(file, start, offset, size, LITTLE)[i] == file[0]
  {
  }

  /** Little-endian from beyond end of file (a negative offset): the first
      `(1 - offset) / 2` fetches find no byte and leave zeros. */
  lemma LittleEndianPastEnd(file: seq<uint8>, start: nat, offset: int, size: int)
    requires 1 <= size <= 4
    requires offset < 0
    ensures forall i :: 0 <= i < size && i < (1 - offset) / 2 ==> Fetch(file, start, offset, size, LITTLE)[i] == 0
  {
  }

  /** A one-byte little-endian read at `offset` is the big-endian read at
      `|file| - 1 - offset`. */
  lemma LittleEndianSingleByte(file: seq<uint8>, start: nat, offset: int, kind: int)
    requires 0 <= offset && offset + 1 <= |file|
    ensures GetNumeric(file, start, offset, 1, kind, LITTLE) == GetNumeric(file, start, |file| - 1 - offset, 1, kind, BIG)
  {
    var s := file[|file| - offset - 1..|file| - offset];
    assert s == [file[|file| - 1 - offset]];
    assert LittleBytes(file, |file| - offset, 1) == s;
    assert Available(file, |file| - 1 - offset, 1) == s;
    SignExtendDetermined(file, start, offset, LITTLE, start, |file| - 1 - offset, BIG, 1, kind);
  }

  /** The unique integer in [-h, h) that agrees with `u` modulo `2h`. */
  lemma SignedRepresentative(x: int, u: nat, w: nat, h: nat)
    requires w == 2 * h && h > 0 && u < w
    requires -(h as int) <= x < h
    requires x % w == u
    ensures x == if u >= h then u - w else u
  {
    if x < 0 {
      ModShift(x + w, w);
    } else {
      ModSmall(x, w);
    }
  }

  /** Lines 95-103: a signed read is the field value when its top bit is
      clear and the field value minus 2^(8*size) when it is set, so FF FF reads
      as -1 and 80 as -128; an unsigned read is the field value. */
  lemma SignedReading(file: seq<uint8>, start: nat, offset: int, size: int, endian: int)
    requires 1 <= size <= 4
    ensures var u := FieldValue(file, start, offset, size, endian);
            ToSigned64(GetNumeric(file, start, offset, size, SIGNED, endian))
              == if u / Pow2(8 * size - 1) == 1 then u - Pow256(size) else u
    ensures var u := FieldValue(file, start, offset, size, endian);
            ToSigned64(GetNumeric(file, start, offset, size, UNSIGNED, endian)) == u
  {
    var u := FieldValue(file, start, offset, size, endian);
    var r := GetNumeric(file, start, offset, size, SIGNED, endian);
    FieldWidth(size);
    TopBit(u, Pow2(8 * size - 1));
    SignedRepresentative(ToSigned64(r), u, Pow256(size), Pow2(8 * size - 1));
  }

  /** Round trip, big-endian: re-encoding the result modulo 2^(8*size),
      most significant byte first, gives back the bytes that were read. */
  lemma RoundTripBig(file: seq<uint8>, start: nat, offset: int, size: int, kind: int)
    requires 1 <= size <= 4
    requires 0 <= offset && offset + size <= |file|
    ensures var r := GetNumeric(file, start, offset, size, kind, BIG);
            BeEncode(ToSigned64(r) % Pow256(size), size) == file[offset..offset + size]
  {
    BigEndianField(file, start, offset, size);
    BeEncodeValue(file[offset..offset + size]);
  }

  /** Round trip, little-endian: re-encoding the result modulo 2^(8*size),
      least significant byte first, gives back the bytes that end `offset`
      bytes before end of file. */
  lemma RoundTripLittle(file: seq<uint8>, start: nat, offset: int, size: int, kind: int)
    requires 1 <= size <= 4
    requires 0 <= offset && offset + size <= |file|
    ensures var r := GetNumeric(file, start, offset, size, kind, LITTLE);
            LeEncode(ToSigned64(r) % Pow256(size), size) == file[|file| - offset - size..|file| - offset]
  {
    var window := file[|file| - offset - size..|file| - offset];
    LittleEndianRead(file, start, offset, size);
    LeEncodeValue(window);
  }

  /** Round trip for any read: the result re-encodes, most significant byte
      first, to the buffer the code fetched. */
  lemma RoundTripFetched(file: seq<uint8>, start: nat, offset: int, size: int, kind: int, endian: int)
    requires 1 <= size <= 4
    ensures var r := GetNumeric(file, start, offset, size, kind, endian);
            BeEncode(ToSigned64(r) % Pow256(size), size) == Fetch(file, start, offset, size, endian)
  {
    FetchValue(file, start, offset, size, endian);
    BeEncodeValue(Fetch(file, start, offset, size, endian));
  }

  /** In range, big-endian leaves the file right after the field and
      little-endian right before it. */
  lemma ExitInRange(file: seq<uint8>, start: nat, offset: int, size: int)
    requires 1 <= size <= 4
    requires 0 <= offset && offset + size <= |file|
    ensures ExitPosition(file, start, offset, size, BIG) == offset + size
    ensures ExitPosition(file, start, offset, size, LITTLE) == |file| - offset - size
  {
    assert |Available(file, offset, size)| == size;
  }

  /** Two calls on one file, the second starting where the first left it:
      after an in-range big-endian read, a little-endian read whose seek
      fails walks back over the same bytes, so it reads them in the opposite
      byte order. */
  lemma ChainedRead(file: seq<uint8>, start: nat, offset: int, offset2: int, size: int)
    requires 1 <= size <= 4
    requires 0 <= offset && offset + size <= |file|
    requires offset2 > |file|
    ensures GetNumeric(file, ExitPosition(file, start, offset, size, BIG), offset2, size, UNSIGNED, LITTLE)
              == LeValue(file[offset..offset + size])
  {
    var e := ExitPosition(file, start, offset, size, BIG);
    ExitInRange(file, start, offset, size);
    var o := |file| - e;
    assert o == |file| - offset - size;
    FailedSeek(file, e, offset2, size, UNSIGNED);
    assert GetNumeric(file, e, offset2, size, UNSIGNED, LITTLE) == GetNumeric(file, e, o, size, UNSIGNED, LITTLE);
    LittleRead(file, e, o, size);
    assert file[|file| - o - size..|file| - o] == file[offset..offset + size];
  }

  /** The value half of `LittleEndianRead` alone, so that `ChainedRead`'s
      proof does not carry the per-byte facts. */
  lemma LittleRead(file: seq<uint8>, start: nat, offset: int, size: int)
    requires 1 <= size <= 4
    requires 0 <= offset && offset + size <= |file|
    ensures GetNumeric(file, start, offset, size, UNSIGNED, LITTLE)
              == LeValue(file[|file| - offset - size..|file| - offset])
  {
    LittleEndianRead(file, start, offset, size);
  }

  /** A value written big-endian into a file reads back as itself. */
  lemma EncodedBigReadsBack(prefix: seq<uint8>, suffix: seq<uint8>, v: nat, size: int, start: nat, kind: int)
    requires 1 <= size <= 4 && v < Pow256(size)
    ensures var file := prefix + BeEncode(v, size) + suffix;
            ToSigned64(GetNumeric(file, start, |prefix|, size, kind, BIG)) % Pow256(size) == v
    ensures GetNumeric(prefix + BeEncode(v, size) + suffix, start, |prefix|, size, UNSIGNED, BIG) == v
  {
    var file := prefix + BeEncode(v, size) + suffix;
    BigEndianField(file, start, |prefix|, size);
    assert file[|prefix|..|prefix| + size] == BeEncode(v, size);
    BeValueEncode(v, size);
  }

  /** A value written little-endian, `|suffix|` bytes before end of file,
      reads back as itself. */
  lemma EncodedLittleReadsBack(prefix: seq<uint8>, suffix: seq<uint8>, v: nat, size: int, start: nat, kind: int)
    requires 1 <= size <= 4 && v < Pow256(size)
    ensures var file := prefix + LeEncode(v, size) + suffix;
            ToSigned64(GetNumeric(file, start, |suffix|, size, kind, LITTLE)) % Pow256(size) == v
    ensures GetNumeric(prefix + LeEncode(v, size) + suffix, start, |suffix|, size, UNSIGNED, LITTLE) == v
  {
    var file := prefix + LeEncode(v, size) + suffix;
    LittleEndianRead(file, start, |suffix|, size);
    assert file[|file| - |suffix| - size..|file| - |suffix|] == LeEncode(v, size);
    LeValueEncode(v, size);
  }

  /** Worked reading: 00 00 00 01, four bytes big-endian unsigned, is 1. */
  lemma ExampleOne()
    ensures GetNumeric([0x00, 0x00, 0x00, 0x01], 0, 0, 4, UNSIGNED, BIG) == 1
  {
    var one: seq<uint8> := [0x00, 0x00, 0x00, 0x01];
    BigEndianInRange(one, 0, 0, 4);
    assert one[0..4] == one;
    LeadingZeros(one);
  }

  lemma LeadingZeros(one: seq<uint8>)
    requires one == [0x00, 0x00, 0x00, 0x01]
    ensures BeValue(one) == 1
  {
    assert [0][..0] == [] && BeValue([0]) == 0;
    assert [0, 0][..1] == [0] && BeValue([0, 0]) == 0;
    assert [0, 0, 0][..2] == [0, 0] && BeValue([0, 0, 0]) == 0;
    assert one[..3] == [0, 0, 0];
  }

  /** Worked reading: FF FF, two bytes big-endian signed, is -1. */
  lemma ExampleMinusOne()
    ensures ToSigned64(GetNumeric([0xFF, 0xFF], 0, 0, 2, SIGNED, BIG)) == -1
  {
    var ffff: seq<uint8> := [0xFF, 0xFF];
    assert Available(ffff, 0, 2) == ffff;
    assert ffff[..1] == [0xFF] && [0xFF][..0] == [];
    KnownPowers();
    assert FieldValue(ffff, 0, 0, 2, BIG) == 0xFFFF;
    SignedReading(ffff, 0, 0, 2, BIG);
    Pow2Add(8, 7);
    assert Pow2(7) == 0x80;
  }

  /** Worked reading: the byte 80 is 128 unsigned and -128 signed. */
  lemma ExampleByte80()
    ensures GetNumeric([0x80], 0, 0, 1, UNSIGNED, BIG) == 128
    ensures ToSigned64(GetNumeric([0x80], 0, 0, 1, SIGNED, BIG)) == -128
  {
    var b80: seq<uint8> := [0x80];
    assert Available(b80, 0, 1) == b80;
    assert b80[..0] == [];
    KnownPowers();
    assert FieldValue(b80, 0, 0, 1, BIG) == 0x80;
    SignedReading(b80, 0, 0, 1, BIG);
    assert Pow2(7) == 0x80;
  }
}
