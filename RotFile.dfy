// TROTFile (trotfile.h, trotfile.cc): a read-only file seen through a
// direct-mapped cache of `numbuf` slots of `bufsize` bytes each.  The file is
// the byte sequence `data` that reading it yields; a read beyond its end is a
// short read.
module RotFile {
  import opened Outcomes
  import opened Bits

  type byte = bv8

  /** isPowerOf2: strips the trailing zero bits and tests for one. */
  method IsPowerOf2(n: int) returns (r: bool)
    ensures r <==> IsPow2(n)
  {
    if n <= 0 {
      return false;
    }
    var i := n;
    ghost var shifts: nat := 0;
    // (i & 1) == 0 and i >>= 1 on a positive i
    while i % 2 == 0
      invariant i > 0 && i * Pow2(shifts) == n
      decreases i
    {
      i := i / 2;
      shifts := shifts + 1;
    }
    r := i == 1;
    if !r {
      forall k: nat ensures Pow2(k) != n {
        OddTimesPow2NotPow2(i, shifts, k);
      }
    }
  }

  /** intLog2: counts the right shifts that bring i down to one; i <= 0 is fatal. */
  method IntLog2(n: int) returns (r: Result<nat>)
    ensures n <= 0 ==> r == Err(FatalError)
    ensures n > 0 ==> r.Ok? && Pow2(r.value) <= n < 2 * Pow2(r.value)
    ensures forall k: nat :: Pow2(k) == n ==> r == Ok(k)
  {
    if n <= 0 {
      return Err(FatalError);
    }
    var i := n;
    var log: nat := 0;
    while i != 1
      invariant i >= 1
      invariant i * Pow2(log) <= n < (i + 1) * Pow2(log)
      decreases i
    {
      HalveBounds(i, Pow2(log), n);
      i := i / 2;
      log := log + 1;
    }
    r := Ok(log);
    forall k: nat | Pow2(k) == n ensures log == k {
      if k < log {
        Pow2Monotone(k + 1, log);
      } else if k > log {
        Pow2Monotone(log + 1, k);
      }
    }
  }

  lemma HalveBounds(i: int, p: int, n: int)
    requires i >= 2 && p >= 1 && i * p <= n < (i + 1) * p
    ensures (i / 2) * (2 * p) <= n < (i / 2 + 1) * (2 * p)
  {
    var h, r := i / 2, i % 2;
    assert i == 2 * h + r;
    assert i * p == 2 * h * p + r * p;
    assert (i + 1) * p == 2 * h * p + r * p + p;
    assert (h + 1) * (2 * p) == 2 * h * p + 2 * p;
  }

  /**
   * The size probe for a file that is not regular (trotfile.cc:57-84): a
   * one-byte read at offset s succeeds iff s < readable.  s doubles as a
   * 32-bit int until a read fails; the search then keeps lo readable and hi
   * unreadable.
   */
  method ProbeSize(readable: nat) returns (r: Result<int>)
    ensures readable > 0x4000_0000 ==> r == Err(UserError)
    ensures readable <= 0x4000_0000 ==> r == Ok(if readable == 0 then 1 else readable)
  {
    Pow2Of30();
    var s := 1;
    ghost var e: nat := 0;
    while s > 0
      invariant e <= 31
      invariant e <= 30 ==> s == Pow2(e)
      invariant e == 31 ==> s == IntMin
      invariant forall t: nat :: t < e ==> Pow2(t) < readable
      decreases 31 - e
    {
      if !(s < readable) {
        break;
      }
      if e < 30 {
        Pow2Monotone(e + 1, 30);
      }
      s := ShiftLeft1(s);
      e := e + 1;
    }
    if s <= 0 {
      assert Pow2(30) < readable;
      return Err(UserError);
    }
    assert e <= 30 && s == Pow2(e) && readable <= s;
    if readable > 0x4000_0000 {
      Pow2Monotone(e, 30);
      assert false;
    }
    assert e > 0 ==> Pow2(e - 1) < readable;
    var lo := s / 2;
    var hi := s;
    while lo + 1 < hi
      invariant 0 <= lo < hi
      invariant readable <= hi
      invariant readable >= 1 ==> lo < readable
      invariant readable == 0 ==> hi == 1
      decreases hi - lo
    {
      s := (lo + hi) / 2;
      if !(s < readable) {
        hi := s;
      } else {
        lo := s;
      }
    }
    r := Ok(hi);
  }

  /** The block of the file holding byte i, as an offset (`i & offmask`). */
  function BlockOf(i: int, bufsize: int): int
    requires bufsize > 0
  {
    i - i % bufsize
  }

  /** The slot a byte at offset i is cached in (`(i >> bufbits) & nummask`). */
  function SlotOf(i: int, bufsize: int, numbuf: int): int
    requires bufsize > 0 && numbuf > 0
  {
    (i / bufsize) % numbuf
  }

  /**
   * The bit-level slot selection of operator[] is block-and-slot arithmetic:
   * the slot is (i / bufsize) % numbuf, the aligned offset i - i % bufsize and
   * the position inside the slot i % bufsize.
   */
  lemma SlotSelection(i: int, bufbits: nat, numlog: nat)
    ensures And(Shr(i, bufbits), Pow2(numlog) - 1) == SlotOf(i, Pow2(bufbits), Pow2(numlog))
    ensures And(i, Not(Pow2(bufbits) - 1)) == BlockOf(i, Pow2(bufbits))
    ensures And(i, Pow2(bufbits) - 1) == i % Pow2(bufbits)
  {
    ShrIsDiv(i, bufbits);
    AndLowMask(Shr(i, bufbits), numlog);
    AndHighMask(i, bufbits);
    AndLowMask(i, bufbits);
  }

  /** The aligned offset of i's block is a multiple of b at most i, in the same quotient. */
  lemma BlockAligned(i: int, b: int)
    requires b > 0
    ensures BlockOf(i, b) <= i && BlockOf(i, b) % b == 0 && BlockOf(i, b) / b == i / b
    ensures i >= 0 ==> BlockOf(i, b) >= 0
  {
    var q, o := i / b, BlockOf(i, b);
    assert o == b * q by {
      assert i == b * q + i % b;
    }
    DivModUnique(o, b, q, 0);
    if q >= 1 {
      MulAtLeast(b, q);
    } else if i >= 0 {
      assert q == 0;
    }
  }

  /**
   * One past the last index operator[] serves: the unsigned compare
   * `(uint)i < (uint)_size` admits every non-negative int once _size is
   * negative.
   */
  function Limit(size: int): (n: int)
    requires IsInt32(size)
    ensures 0 <= n <= IntMax + 1
    ensures forall i :: 0 <= i <= IntMax ==> (i < n <==> ToUint(i) < ToUint(size))
  {
    if size >= 0 then size else IntMax + 1
  }

  /**
   * Below n, a block either ends by the last aligned offset of n, or is the
   * partial block that starts there.
   */
  lemma BlockEnd(i: int, n: int, b: int)
    requires b > 0 && 0 <= i < n
    ensures BlockOf(i, b) + b <= n - n % b || (BlockOf(i, b) == n - n % b && i % b < n % b)
  {
    var qi, qn := i / b, n / b;
    assert i == b * qi + i % b && n == b * qn + n % b;
    DivMonotone(i, n, b);
    if qi < qn {
      MulStrictMonotone(b, qi, qn);
    }
  }

  /** A power of two that fits an int divides 2^31. */
  lemma Pow2DividesLimit(bits: nat)
    requires Pow2(bits) <= IntMax
    ensures (IntMax + 1) % Pow2(bits) == 0
  {
    Pow2Of30();
    if bits > 30 {
      Pow2Monotone(31, bits);
      assert false;
    }
    Pow2Add(bits, 31 - bits);
    assert Pow2(31) == 2 * Pow2(30);
    DivModUnique(IntMax + 1, Pow2(bits), Pow2(31 - bits), 0);
  }

  class RotFile {
    const data: seq<byte>
    const numbuf: int
    const bufsize: int
    const bufbits: nat
    const bufmask: int
    const nummask: int
    const offmask: int
    const size: int
    ghost const numlog: nat
    const off: array<int>
    const buf: seq<array<byte>>  // the slot pointers are never reassigned after construction

    /** Bytes loadBuf reads for the block at offset o: the last block is short. */
    function BlockLen(o: int): int
      requires bufsize > 0
    {
      if o == size - size % bufsize then size % bufsize else bufsize
    }

    /** The length loadBuf computes with the masks is BlockLen. */
    function LoadLen(offset: int): (len: int)
      requires bufsize == Pow2(bufbits) && bufmask == bufsize - 1 && offmask == Not(bufmask)
      ensures len == BlockLen(offset)
    {
      SlotSelection(size, bufbits, 0);
      if offset == And(size, offmask) then And(size, bufmask) else bufsize
    }

    /** Slot k, recorded at offset o, either is invalid or holds that block's bytes of the file. */
    ghost predicate SlotHolds(k: int, o: int)
      reads buf[k]
      requires 0 <= k < |buf| && bufsize > 0 && numbuf > 0
    {
      o == -1 ||
      (IsInt32(size) && 0 <= o < Limit(size) && o % bufsize == 0 && SlotOf(o, bufsize, numbuf) == k &&
       o + BlockLen(o) <= |data| && BlockLen(o) <= buf[k].Length &&
       buf[k][..BlockLen(o)] == data[o..o + BlockLen(o)])
    }

    ghost predicate Valid()
      reads off, buf
    {
      numbuf == Pow2(numlog) && bufsize == Pow2(bufbits) &&
      IsInt32(numbuf) && IsInt32(bufsize) && IsInt32(size) &&
      bufmask == bufsize - 1 && offmask == Not(bufmask) && nummask == numbuf - 1 &&
      off.Length == numbuf && |buf| == numbuf &&
      (forall k :: 0 <= k < numbuf ==> buf[k].Length == bufsize && buf[k] as object != off) &&
      (forall k, l :: 0 <= k < l < numbuf ==> buf[k] != buf[l]) &&
      (forall k :: 0 <= k < numbuf ==> SlotHolds(k, off[k]))
    }

    /**
     * Masks and slot invalidation of the constructor (trotfile.cc:37-40,
     * 87-90); the checks that precede them are in Open.
     */
    constructor (data: seq<byte>, numbuf: int, bufsize: int, bufbits: nat, ghost numlog: nat, size: int)
      requires numbuf == Pow2(numlog) && bufsize == Pow2(bufbits)
      requires IsInt32(numbuf) && IsInt32(bufsize) && IsInt32(size)
      ensures Valid() && fresh(off) && fresh(buf)
      ensures this.data == data && this.size == size
      ensures this.numbuf == numbuf && this.bufsize == bufsize && this.bufbits == bufbits
      ensures bufmask == bufsize - 1 && offmask == Not(bufsize - 1) && nummask == numbuf - 1
      ensures forall k :: 0 <= k < numbuf ==> off[k] == -1 && fresh(buf[k])
    {
      this.data := data;
      this.numbuf := numbuf;
      this.bufsize := bufsize;
      this.bufbits := bufbits;
      this.numlog := numlog;
      this.size := size;
      bufmask := bufsize - 1;
      offmask := Not(bufsize - 1);
      nummask := numbuf - 1;
      var offs := new int[numbuf];
      var bufs: seq<array<byte>> := [];
      var i := 0;
      while i < numbuf
        invariant 0 <= i <= numbuf && |bufs| == i
        invariant forall k :: 0 <= k < i ==> offs[k] == -1
        invariant forall k :: 0 <= k < i ==> bufs[k].Length == bufsize && fresh(bufs[k]) && bufs[k] as object != offs
        invariant forall k, l :: 0 <= k < l < i ==> bufs[k] != bufs[l]
      {
        var b := new byte[bufsize];
        bufs := bufs + [b];
        offs[i] := -1;
        i := i + 1;
      }
      off := offs;
      buf := bufs;
    }

    /** A cached byte is the file's byte: the invariant's promise for a hit. */
    lemma CachedByte(i: int)
      requires Valid() && 0 <= i < Limit(size)
      requires off[SlotOf(i, bufsize, numbuf)] == BlockOf(i, bufsize)
      ensures i < |data|
      ensures buf[SlotOf(i, bufsize, numbuf)][i % bufsize] == data[i]
    {
      var k, o := SlotOf(i, bufsize, numbuf), BlockOf(i, bufsize);
      assert SlotHolds(k, o);
      BlockCovers(i);
      assert buf[k][..BlockLen(o)][i - o] == data[o..o + BlockLen(o)][i - o];
    }

    /**
     * Byte i lies inside the bytes loadBuf reads for its block, and that
     * block ends by the last index served.
     */
    lemma BlockCovers(i: int)
      requires bufsize == Pow2(bufbits) && IsInt32(bufsize) && IsInt32(size) && 0 <= i < Limit(size)
      ensures var o := BlockOf(i, bufsize);
        0 <= o <= i && i - o == i % bufsize < BlockLen(o) <= bufsize && o + BlockLen(o) <= Limit(size)
        && o % bufsize == 0 && o / bufsize == i / bufsize
    {
      var b, n, o := bufsize, Limit(size), BlockOf(i, bufsize);
      BlockAligned(i, b);
      BlockEnd(i, n, b);
      if size < 0 {
        Pow2DividesLimit(bufbits);
        assert size - size % b < 0 <= o;
        assert BlockLen(o) == b && o + b <= n;
      } else if o + b <= n - n % b {
        assert BlockLen(o) == b;
      } else {
        assert BlockLen(o) == n % b;
      }
    }

    /**
     * loadBuf: reads the block at offset into slot buffer, bufsize bytes or,
     * for the block at `size & offmask`, `size & bufmask` bytes; a short read
     * is fatal, and so is the seek to a negative offset; after a full read
     * the slot records offset.
     */
    method LoadBuf(offset: int, buffer: int) returns (r: Result<()>)
      requires Valid() && offset < Limit(size) && offset % bufsize == 0
      requires 0 <= buffer < numbuf && SlotOf(offset, bufsize, numbuf) == buffer
      modifies off, buf[buffer]
      ensures Valid()
      ensures r.Ok? <==> 0 <= offset && offset + BlockLen(offset) <= |data|
      ensures r.Ok? ==> off[..] == old(off[..])[buffer := offset]
      ensures r.Err? ==> r.error == FatalError && off[..] == old(off[..]) && buf[buffer][..] == old(buf[buffer][..])
    {
      if offset < 0 {
        return Err(FatalError);
      }
      var slot := buf[buffer];
      var len := LoadLen(offset);
      if offset + len > |data| {
        return Err(FatalError);
      }
      for m := 0 to len
        invariant slot[..m] == data[offset..offset + m]
        modifies slot
      {
        slot[m] := data[offset + m];
      }
      assert slot[..len] == data[offset..offset + len];
      off[buffer] := offset;
      r := Ok(());
      assert SlotHolds(buffer, offset);
      forall k | 0 <= k < numbuf && k != buffer ensures SlotHolds(k, off[k]) {
        assert old(SlotHolds(k, off[k]));
        assert buf[k] != slot;
      }
    }

    /**
     * The masks of operator[]: i & offmask is the start of i's block,
     * (i >> bufbits) & nummask the slot that caches it, and i & bufmask the
     * byte's place within the block.
     */
    method Locate(i: int) returns (offset: int, buffer: int, within: int)
      requires Valid()
      ensures offset == BlockOf(i, bufsize) && buffer == SlotOf(i, bufsize, numbuf) && within == i % bufsize
    {
      SlotSelection(i, bufbits, numlog);
      offset := And(i, offmask);
      buffer := And(Shr(i, bufbits), nummask);
      within := And(i, bufmask);
      assert offset == BlockOf(i, bufsize) by {
        assert offmask == Not(Pow2(bufbits) - 1);
      }
      assert buffer == SlotOf(i, bufsize, numbuf) by {
        assert nummask == Pow2(numlog) - 1;
      }
    }

    /**
     * operator[]: byte i of the file.  An index outside [0, Limit(size)) is
     * fatal: one the unsigned compare rejects at once, a negative one that
     * passes it (i < size < 0) when loadBuf seeks to its negative block.  A
     * miss reloads the byte's slot; nothing else of the cache changes.
     */
    method Get(i: int) returns (r: Result<byte>)
      requires Valid() && IsInt32(i)
      modifies off, buf
      ensures Valid()
      ensures !(0 <= i < Limit(size)) ==> r == Err(FatalError)
      ensures 0 <= i < Limit(size) <= |data| ==> r == Ok(data[i])
      ensures r.Ok? ==> 0 <= i < |data| && r.value == data[i]
      ensures r.Err? ==> off[..] == old(off[..]) && forall k :: 0 <= k < numbuf ==> buf[k][..] == old(buf[k][..])
      ensures r.Ok? ==> off[..] == old(off[..])[SlotOf(i, bufsize, numbuf) := BlockOf(i, bufsize)]
      ensures r.Ok? ==> forall k :: 0 <= k < numbuf && k != SlotOf(i, bufsize, numbuf) ==> buf[k][..] == old(buf[k][..])
      ensures 0 <= i < Limit(size) && old(off[SlotOf(i, bufsize, numbuf)]) == BlockOf(i, bufsize) ==>
        r.Ok? && off[..] == old(off[..]) && forall k :: 0 <= k < numbuf ==> buf[k][..] == old(buf[k][..])
    {
      if ToUint(i) < ToUint(size) {
        var offset, buffer, within := Locate(i);
        BlockAligned(i, bufsize);
        if i >= 0 {
          BlockCovers(i);
        } else {
          assert i < size < 0 && offset < -1;
          assert SlotHolds(buffer, off[buffer]);
        }
        if offset != off[buffer] {
          var loaded := LoadBuf(offset, buffer);
          if loaded.Err? {
            return Err(FatalError);
          }
        }
        CachedByte(i);
        r := Ok(buf[buffer][within]);
      } else {
        r := Err(FatalError);
      }
    }
  }

  /**
   * The constructor's checks (trotfile.cc:25-84): numbuf and bufsize must be
   * powers of two (fatal), the file must exist and open (user error), and a
   * file that is not regular gets its size from the probe.
   */
  method Open(data: seq<byte>, exists_: bool, regular: bool, numbuf: int, bufsize: int)
    returns (r: Result<RotFile>)
    requires IsInt32(numbuf) && IsInt32(bufsize)
    ensures !IsPow2(numbuf) || !IsPow2(bufsize) ==> r == Err(FatalError)
    ensures IsPow2(numbuf) && IsPow2(bufsize) && !exists_ ==> r == Err(UserError)
    ensures r.Ok? ==> fresh(r.value) && r.value.Valid() && r.value.data == data
    ensures r.Ok? ==> r.value.numbuf == numbuf && r.value.bufsize == bufsize
    ensures r.Ok? ==> forall k :: 0 <= k < numbuf ==> r.value.off[k] == -1
    ensures r.Ok? && regular ==> r.value.size == Wrap32(|data|) && Limit(r.value.size) <= |data|
    ensures r.Ok? && !regular ==> r.value.size == if |data| == 0 then 1 else |data|
    ensures IsPow2(numbuf) && IsPow2(bufsize) && exists_ ==> (r.Ok? <==> regular || |data| <= 0x4000_0000)
  {
    var p1 := IsPowerOf2(numbuf);
    var p2 := IsPowerOf2(bufsize);
    if !p1 || !p2 {
      return Err(FatalError);
    }
    var bits := IntLog2(bufsize);
    ghost var numlog: nat :| Pow2(numlog) == numbuf;
    if !exists_ {
      return Err(UserError);
    }
    var size := Wrap32(|data|);
    if !regular {
      var probed := ProbeSize(|data|);
      if probed.Err? {
        return Err(UserError);
      }
      size := probed.value;
    }
    var f := new RotFile(data, numbuf, bufsize, bits.value, numlog, size);
    r := Ok(f);
  }
}
