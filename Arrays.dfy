// tarray.h: TArray, the range-checked growable array of the library.  The
// elements live in the first num cells of a heap array whose length is the
// capacity max; an automatic array grows when an index past its end is
// written, a fixed one refuses it.  Exceptions become Err results, raised
// before anything changes, as in the source.
module Arrays {
  import opened MinMax
  import opened Outcomes

  /**
   * arrayCopy (tarray.h:289-293) with the pointer arithmetic of its callers
   * written out: src[soff..soff+n] is copied to dst[doff..doff+n], front to
   * back, so a copy within one array towards its start (slowRemove), or
   * into a part of it that does not overlap the source, reads every cell
   * before it is overwritten.
   */
  method ArrayCopy<T>(dst: array<T>, doff: nat, src: array<T>, soff: nat, n: nat)
    requires doff + n <= dst.Length && soff + n <= src.Length
    requires dst == src ==> doff <= soff || soff + n <= doff
    modifies dst
    ensures dst[..] == old(dst[..doff]) + old(src[soff..soff + n]) + old(dst[doff + n..])
  {
    ghost var d0, s0 := dst[..], src[..];
    for i := 0 to n
      invariant forall k :: doff <= k < doff + i ==> dst[k] == s0[soff + (k - doff)]
      invariant forall k :: 0 <= k < dst.Length && !(doff <= k < doff + i) ==> dst[k] == d0[k]
      invariant dst != src ==> src[..] == s0
    {
      dst[doff + i] := src[soff + i];
    }
    Spliced(dst[..], d0, s0, doff, soff, n);
  }

  /** A sequence that agrees with s0 on n cells from doff and with d0 elsewhere is the splice. */
  lemma Spliced<T>(r: seq<T>, d0: seq<T>, s0: seq<T>, doff: nat, soff: nat, n: nat)
    requires |r| == |d0| && doff + n <= |d0| && soff + n <= |s0|
    requires forall k :: doff <= k < doff + n ==> r[k] == s0[soff + (k - doff)]
    requires forall k :: 0 <= k < |r| && !(doff <= k < doff + n) ==> r[k] == d0[k]
    ensures r == d0[..doff] + s0[soff..soff + n] + d0[doff + n..]
  {
    var x := d0[..doff] + s0[soff..soff + n];
    forall k | 0 <= k < |r|
      ensures r[k] == (x + d0[doff + n..])[k]
    {
      if k < doff {
        assert x[k] == d0[k];
      } else if k < doff + n {
        assert x[k] == s0[soff + (k - doff)];
      }
    }
  }

  /** The capacity after a reallocation to size: size, or INITIAL_SIZE (1) for 0 (tarray.h:181, 282). */
  function Capacity(size: nat): (m: nat)
    ensures m >= 1 && m >= size
  {
    if size == 0 then 1 else size
  }

  /** n copies of x. */
  function Fill<T>(x: T, n: nat): (r: seq<T>)
    ensures |r| == n && forall j :: 0 <= j < n ==> r[j] == x
  {
    if n == 0 then [] else Fill(x, n - 1) + [x]
  }

  /**
   * TArray<T>.  dflt is the value T's default constructor makes, which new
   * cells get; arr.Length is max; num is _num.
   */
  class TArray<T(==)> {
    const dflt: T
    var arr: array<T>
    var num: nat
    var automatic: bool

    /** 0 <= num <= max and max >= 1 (tarray.h:157-163). */
    ghost predicate Valid()
      reads this
    {
      1 <= arr.Length && num <= arr.Length
    }

    /** The elements, in order. */
    function Contents(): seq<T>
      reads this, arr
      requires Valid()
    {
      arr[..num]
    }

    /** The automatic array: empty, capacity INITIAL_SIZE (tarray.h:172-174). */
    constructor Automatic(dflt: T)
      ensures Valid() && fresh(arr) && Contents() == [] && automatic && this.dflt == dflt
    {
      this.dflt := dflt;
      arr := new T[1](_ => dflt);
      num := 0;
      automatic := true;
    }

    /** The fixed array of size default elements, for size >= 0 (tarray.h:176-183). */
    constructor Fixed(size: nat, dflt: T)
      ensures Valid() && fresh(arr) && Contents() == Fill(dflt, size) && !automatic && this.dflt == dflt
    {
      this.dflt := dflt;
      arr := new T[Capacity(size)](_ => dflt);
      num := size;
      automatic := false;
      new;
      assert Contents() == Fill(dflt, size);
    }

    /** The copy constructor (tarray.h:240-245): the same elements and mode, capacity num or 1. */
    constructor Copy(a: TArray<T>)
      requires a.Valid()
      ensures Valid() && fresh(arr) && Contents() == a.Contents() && automatic == a.automatic
      ensures arr.Length == Capacity(a.num) && dflt == a.dflt
    {
      dflt := a.dflt;
      num := a.num;
      automatic := a.automatic;
      arr := new T[Capacity(a.num)](_ => a.dflt);
      new;
      ArrayCopy(arr, 0, a.arr, 0, a.num);
    }

    /**
     * resizePrivate (tarray.h:279-287): a new array of Capacity(size) cells
     * holding the first min(num, size) elements, the rest default.
     */
    method Reallocate(size: nat)
      requires Valid()
      modifies this
      ensures Valid() && fresh(arr) && arr.Length == Capacity(size)
      ensures num == Min(old(num), size) && Contents() == old(Contents())[..num]
      ensures arr[num..] == Fill(dflt, arr.Length - num)
      ensures automatic == old(automatic)
    {
      if size < num {
        num := size;
      }
      var fresh_ := new T[Capacity(size)](_ => dflt);
      ArrayCopy(fresh_, 0, arr, 0, num);
      arr := fresh_;
      assert arr[num..] == Fill(dflt, arr.Length - num);
    }

    /** resize (tarray.h:214-219): exactly size elements, the old ones kept, new ones default; a negative size throws. */
    method Resize(size: int) returns (r: Result<()>)
      requires Valid()
      modifies this
      ensures Valid() && automatic == old(automatic)
      ensures size < 0 <==> r.Err?
      ensures r.Err? ==> r.error == IllegalSize && unchanged(this)
      ensures r.Ok? ==> fresh(arr) && |Contents()| == size &&
                        Contents() == old(Contents())[..Min(old(num), size)] + Fill(dflt, size - Min(old(num), size))
    {
      if size < 0 {
        return Err(IllegalSize);
      }
      Reallocate(size);
      ghost var kept := num;
      num := size;
      assert arr[kept..num] == arr[kept..][..num - kept];
      r := Ok(());
    }

    /**
     * createIndex (tarray.h:185-197): an existing index is kept; an
     * automatic array grows to i + 1 elements, reallocating to
     * max(i + 1, 2 max + 2) cells when i is past its capacity; a negative
     * index, or any index past the end of a fixed array, throws.  Cells
     * between the old end and i keep what the array held there, which is
     * the default only when it was reallocated.
     */
    method CreateIndex(i: int) returns (r: Result<nat>)
      requires Valid()
      modifies this
      ensures Valid() && automatic == old(automatic)
      ensures r.Ok? <==> 0 <= i && (i < old(num) || automatic)
      ensures r.Err? ==> r.error == IndexOutOfRange && unchanged(this)
      ensures r.Ok? ==> r.value == i && num == Max(old(num), i + 1) && Contents()[..old(num)] == old(Contents())
      ensures r.Ok? && old(num) <= i ==>
        forall j :: old(num) <= j < num ==> arr[j] == (if i >= old(arr.Length) then dflt else old(arr[j]))
      ensures r.Ok? && (i < old(num) || i < old(arr.Length)) ==> arr == old(arr)
      ensures arr == old(arr) || fresh(arr)
    {
      if 0 <= i && i < num {
        return Ok(i);
      }
      if !automatic || i < 0 {
        return Err(IndexOutOfRange);
      }
      if i >= arr.Length {
        var _ := Resize(Max(i + 1, arr.Length * 2 + 2));
      }
      num := i + 1;
      r := Ok(i);
    }

    /** checkIndex and the const operator[] and operator() (tarray.h:89-91, 199-203): the element, or a throw. */
    function Get(i: int): (r: Result<T>)
      reads this, arr
      requires Valid()
      ensures r.Ok? <==> 0 <= i < num
      ensures r.Ok? ==> r.value == Contents()[i]
      ensures r.Err? ==> r.error == IndexOutOfRange
    {
      if 0 <= i < num then Ok(arr[i]) else Err(IndexOutOfRange)
    }

    /** Writing through the non-const operator[] (tarray.h:87): the index is created, then overwritten. */
    method Set(i: int, x: T) returns (r: Result<()>)
      requires Valid()
      modifies this, arr
      ensures Valid() && automatic == old(automatic)
      ensures r.Ok? <==> 0 <= i && (i < old(num) || automatic)
      ensures r.Err? ==> r.error == IndexOutOfRange && unchanged(this) && unchanged(old(arr))
      ensures r.Ok? && i < old(num) ==> Contents() == old(Contents())[i := x]
      ensures r.Ok? ==> num == Max(old(num), i + 1) && Contents()[i] == x &&
                        forall j :: 0 <= j < old(num) && j != i ==> Contents()[j] == old(Contents())[j]
    {
      var c := CreateIndex(i);
      if c.Err? {
        return Err(c.error);
      }
      arr[i] := x;
      r := Ok(());
    }

    /** operator+= of an element (tarray.h:206-211): x is appended, doubling the capacity plus 2 when full. */
    method Push(x: T)
      requires Valid()
      modifies this, arr
      ensures Valid() && automatic == old(automatic)
      ensures Contents() == old(Contents()) + [x]
    {
      if num == arr.Length {
        Reallocate(arr.Length * 2 + 2);
      }
      arr[num] := x;
      num := num + 1;
    }

    /**
     * operator+= of an array (tarray.h:261-267), with the count of a's
     * elements taken before the resize (see ExtendCopyAsWritten): a's
     * elements are appended, also when a is this array.  Distinct arrays
     * never share their storage.
     */
    method Extend(a: TArray<T>)
      requires Valid() && a.Valid() && (a == this || a.arr != arr)
      modifies this, arr
      ensures Valid() && automatic == old(automatic)
      ensures Contents() == old(Contents()) + old(a.Contents())
    {
      ghost var src := a.Contents();
      var start := num;
      var n := a.num;
      var _ := Resize(num + n);
      assert a.arr[..n] == src;
      ArrayCopy(arr, start, a.arr, 0, n);
      assert Contents() == arr[..start] + src;
    }

    /** find (tarray.h:270-276): the least index of an element equal to x, or -1. */
    method Find(x: T) returns (r: int)
      requires Valid()
      ensures -1 <= r < num
      ensures r == -1 <==> x !in Contents()
      ensures r >= 0 ==> Contents()[r] == x && x !in Contents()[..r]
    {
      for i := 0 to num
        invariant x !in arr[..i]
      {
        if arr[i] == x {
          assert arr[..i + 1] == arr[..i] + [x];
          return i;
        }
        assert arr[..i + 1] == arr[..i] + [arr[i]];
      }
      return -1;
    }

    /** shrinkRemove (tarray.h:221-225): the last element moves into slot i, and the array shrinks by one. */
    method ShrinkRemove(i: int) returns (r: Result<()>)
      requires Valid()
      modifies this, arr
      ensures Valid() && automatic == old(automatic) && arr == old(arr)
      ensures r.Ok? <==> 0 <= i < old(num)
      ensures r.Err? ==> r.error == IndexOutOfRange && unchanged(this) && unchanged(arr)
      ensures r.Ok? ==> Contents() == old(Contents())[i := old(Contents())[old(num) - 1]][..old(num) - 1]
    {
      if !(0 <= i < num) {
        return Err(IndexOutOfRange);
      }
      arr[i] := arr[num - 1];
      num := num - 1;
      r := Ok(());
    }

    /** slowRemove (tarray.h:232-237): element i is removed and the rest keep their order. */
    method SlowRemove(i: int) returns (r: Result<()>)
      requires Valid()
      modifies this, arr
      ensures Valid() && automatic == old(automatic) && arr == old(arr)
      ensures r.Ok? <==> 0 <= i < old(num)
      ensures r.Err? ==> r.error == IndexOutOfRange && unchanged(this) && unchanged(arr)
      ensures r.Ok? ==> Contents() == old(Contents())[..i] + old(Contents())[i + 1..]
    {
      if !(0 <= i < num) {
        return Err(IndexOutOfRange);
      }
      ghost var before := arr[..];
      ArrayCopy(arr, i, arr, i + 1, num - i - 1);
      num := num - 1;
      assert Contents() == before[..i] + before[i + 1..num + 1];
      r := Ok(());
    }

    /** lastElement (tarray.h:295-305): the last element, or ArrayIsEmpty. */
    function Last(): (r: Result<T>)
      reads this, arr
      requires Valid()
      ensures r.Ok? <==> Contents() != []
      ensures r.Ok? ==> r.value == Contents()[|Contents()| - 1]
      ensures r.Err? ==> r.error == ArrayIsEmpty
    {
      if num > 0 then Ok(arr[num - 1]) else Err(ArrayIsEmpty)
    }

    /** killLastElement (tarray.h:307-311): the last element is dropped, or ArrayIsEmpty. */
    method KillLast() returns (r: Result<()>)
      requires Valid()
      modifies this
      ensures Valid() && automatic == old(automatic) && arr == old(arr)
      ensures r.Ok? <==> old(num) > 0
      ensures r.Err? ==> r.error == ArrayIsEmpty && unchanged(this)
      ensures r.Ok? ==> Contents() == old(Contents())[..old(num) - 1]
    {
      if num == 0 {
        return Err(ArrayIsEmpty);
      }
      num := num - 1;
      r := Ok(());
    }

    /** empty (tarray.h:81): no elements; the capacity stays. */
    method Clear()
      requires Valid()
      modifies this
      ensures Valid() && Contents() == [] && arr == old(arr) && automatic == old(automatic)
    {
      num := 0;
    }

    /** automaticSize and fixedSize (tarray.h:106-109). */
    method SetAutomatic(on: bool)
      requires Valid()
      modifies this
      ensures Valid() && automatic == on && Contents() == old(Contents()) && arr == old(arr)
    {
      automatic := on;
    }

    /** operator= (tarray.h:248-258): this becomes a copy of a; assigning an array to itself changes nothing. */
    method Assign(a: TArray<T>)
      requires Valid() && a.Valid()
      modifies this
      ensures Valid() && Contents() == old(a.Contents()) && automatic == old(a.automatic)
      ensures a == this ==> unchanged(this)
    {
      if a == this {
        return;
      }
      num := a.num;
      automatic := a.automatic;
      var fresh_ := new T[Capacity(a.num)](_ => dflt);
      ArrayCopy(fresh_, 0, a.arr, 0, a.num);
      arr := fresh_;
    }
  }

  /** The comparison operator== (tarray.h:318-323): same size and equal elements. */
  method Equal<T(==)>(a: TArray<T>, b: TArray<T>) returns (r: bool)
    requires a.Valid() && b.Valid()
    ensures r <==> a.Contents() == b.Contents()
  {
    if a.num != b.num {
      return false;
    }
    for i := 0 to a.num
      invariant a.arr[..i] == b.arr[..i]
    {
      if a.arr[i] != b.arr[i] {
        assert a.Contents()[i] != b.Contents()[i];
        return false;
      }
      assert a.arr[..i + 1] == a.arr[..i] + [a.arr[i]];
      assert b.arr[..i + 1] == b.arr[..i] + [b.arr[i]];
    }
    r := true;
  }

  /** operator+ (tarray.h:325-330): a copy of a with b appended. */
  method Concat<T(==)>(a: TArray<T>, b: TArray<T>) returns (r: TArray<T>)
    requires a.Valid() && b.Valid()
    ensures fresh(r) && r.Valid() && r.Contents() == a.Contents() + b.Contents()
  {
    r := new TArray.Copy(a);
    r.Extend(b);
  }

  /**
   * The copy operator+=(const TArray&) makes, as written: it resizes this
   * array to num + a.num first and then copies a._num elements, read after
   * the resize, to index num.  The result is (start, count, capacity).
   */
  function ExtendCopyAsWritten(num: nat, anum: nat, same: bool): (nat, nat, nat)
  {
    var size := num + anum;
    (num, if same then size else anum, Capacity(size))
  }

  /**
   * For distinct arrays the copy fits exactly behind the old elements; for
   * a += a on a non-empty array it writes num cells past the end of the
   * new storage.
   */
  lemma ExtendSelfOverruns(num: nat, anum: nat)
    ensures var (start, count, cap) := ExtendCopyAsWritten(num, anum, false); start + count <= cap
    ensures num >= 1 ==> var (start, count, cap) := ExtendCopyAsWritten(num, num, true);
                         start + count == cap + num && start + count > cap
  {
  }
}
