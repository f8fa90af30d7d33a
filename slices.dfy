/** The `Append` function of slices.go, over a model of Go byte slices: a
    slice is a header (backing array, offset, length) and its capacity is the
    room left in the backing array from the offset on. */
module Slices {

  newtype byte = x: int | 0 <= x < 256

  /** A slice header.  Several headers may share one backing array, so a write
      through one is seen through the others.  A nil slice is modelled as a
      slice over an empty array (length and capacity 0). */
  datatype Slice = Slice(arr: array<byte>, off: nat, len: nat)
  {
    ghost predicate Valid()
    {
      off + len <= arr.Length
    }

    /** `cap(s)` */
    function Cap(): nat
      requires Valid()
    {
      arr.Length - off
    }

    /** The elements the slice shows. */
    function Elements(): seq<byte>
      reads arr
      requires Valid()
    {
      arr[off..off + len]
    }

    /** `s[lo:hi]`: legal while `hi` stays within the capacity; the result
        shares the backing array. */
    function Reslice(lo: nat, hi: nat): (r: Slice)
      requires Valid() && lo <= hi <= Cap()
      ensures r.Valid() && r.arr == arr
      ensures r.len == hi - lo && r.Cap() == Cap() - lo
    {
      Slice(arr, off + lo, hi - lo)
    }
  }

  /** Growth is needed exactly when the appended length exceeds the capacity. */
  predicate NeedsGrowth(l: nat, n: nat, cap: nat)
  {
    l + n > cap
  }

  /** `make([]byte, n)`: a fresh backing array of `n` zero bytes. */
  method Make(n: nat) returns (s: Slice)
    ensures s.Valid() && fresh(s.arr) && s.off == 0 && s.len == n && s.Cap() == n
    ensures forall i :: 0 <= i < n ==> s.arr[i] == 0
  {
    var a := new byte[n](_ => 0);
    s := Slice(a, 0, n);
  }

  /** The built-in `copy(dst, src)`: copies `min(len(dst), len(src))` bytes
      to the front of `dst` and returns that count.  `src` is taken as its
      value before the copy, which is what `copy` gives for overlapping
      slices too.  Only the copied cells of the backing array change. */
  method Copy(dst: Slice, src: seq<byte>) returns (n: nat)
    requires dst.Valid()
    modifies dst.arr
    ensures n == if dst.len < |src| then dst.len else |src|
    ensures dst.arr[dst.off..dst.off + n] == src[..n]
    ensures forall j :: 0 <= j < dst.arr.Length && !(dst.off <= j < dst.off + n) ==>
              dst.arr[j] == old(dst.arr[j])
  {
    n := if dst.len < |src| then dst.len else |src|;
    for i := 0 to n
      invariant dst.arr[dst.off..dst.off + i] == src[..i]
      invariant forall j :: 0 <= j < dst.arr.Length && !(dst.off <= j < dst.off + i) ==>
                  dst.arr[j] == old(dst.arr[j])
    {
      dst.arr[dst.off + i] := src[i];
      assert dst.arr[dst.off..dst.off + i + 1] == dst.arr[dst.off..dst.off + i] + [src[i]];
      assert src[..i + 1] == src[..i] + [src[i]];
    }
  }

  /** Append: the result shows the old elements followed by `data`.  When
      they do not fit in the capacity, a fresh zero-filled array of twice the
      needed length is allocated and the old array is left alone; otherwise
      `data` is written into the existing backing array right after the old
      elements, the capacity stays, and no other cell changes. */
  method Append(slice: Slice, data: seq<byte>) returns (r: Slice)
    requires slice.Valid()
    modifies slice.arr
    ensures r.Valid() && r.len == slice.len + |data| && r.len <= r.Cap()
    ensures r.Elements() == old(slice.Elements()) + data
    ensures NeedsGrowth(slice.len, |data|, slice.Cap()) ==>
              && fresh(r.arr) && r.off == 0 && r.Cap() == (slice.len + |data|) * 2
              && (forall j :: r.len <= j < r.arr.Length ==> r.arr[j] == 0)
              && unchanged(slice.arr)
    ensures !NeedsGrowth(slice.len, |data|, slice.Cap()) ==>
              && r.arr == slice.arr && r.off == slice.off && r.Cap() == slice.Cap()
              && (forall j :: 0 <= j < r.arr.Length && !(r.off + slice.len <= j < r.off + r.len) ==>
                    r.arr[j] == old(slice.arr[j]))
  {
    var s := slice;
    var l := s.len;
    if l + |data| > s.Cap() {
      // Allocate double what is needed, for future growth.
      var newSlice := Make((l + |data|) * 2);
      var _ := Copy(newSlice, s.Elements());
      s := newSlice;
    }
    assert s.arr[s.off..s.off + l] == old(slice.Elements());
    s := s.Reslice(0, l + |data|);
    CopyAfter(s, l, data);
    r := s;
  }

  /** `copy(s[l:], data)` when `s` has exactly `len(data)` elements after the
      first `l`: the first `l` elements stay, the rest become `data`. */
  method CopyAfter(s: Slice, l: nat, data: seq<byte>)
    requires s.Valid() && s.len == l + |data|
    modifies s.arr
    ensures s.Elements() == old(s.arr[s.off..s.off + l]) + data
    ensures forall j :: 0 <= j < s.arr.Length && !(s.off + l <= j < s.off + s.len) ==>
              s.arr[j] == old(s.arr[j])
  {
    var n := Copy(s.Reslice(l, s.len), data);
    assert s.arr[s.off..s.off + l] == old(s.arr[s.off..s.off + l]);
    assert s.Elements() == s.arr[s.off..s.off + l] + s.arr[s.off + l..s.off + l + |data|];
  }

  /** Appending to a nil slice gives back exactly `data`, in a fresh array of
      twice its length (or the nil slice itself when `data` is empty). */
  method AppendToNil(data: seq<byte>) returns (r: seq<byte>, cap: nat)
    ensures r == data
    ensures cap == 2 * |data|
  {
    var empty := new byte[0];
    var s := Append(Slice(empty, 0, 0), data);
    r, cap := s.Elements(), s.Cap();
  }
}
