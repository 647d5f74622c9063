/**
 A file seen through one movable memory mapping.

 The mapping is the range [segmentStart, segmentStart + segmentLen) of the file. A pointer into it is
 modelled by its distance from the start of the mapping, so a pointer names the right byte only while
 the mapping it was taken from is in place, and may be used only inside the mapping and the file.
 */
module MMapFile {
  import opened Bytes

  datatype Result<T> = Ok(value: T) | OutOfRange | MapFailed

  /** The least multiple of the page size that is not below the requested window; ten pages for none. */
  ghost predicate IsWindow(window: nat, requested: nat, pageSize: nat) {
    && pageSize > 0
    && (requested == 0 ==> window == 10 * pageSize)
    && (requested > 0 ==> requested <= window < requested + pageSize)
    && WholePages(window, pageSize)
  }

  ghost predicate WholePages(x: nat, pageSize: nat) {
    exists n: nat :: Product(n, pageSize) == x
  }

  ghost function Product(n: nat, pageSize: nat): nat { n * pageSize }

  function Zeros(n: nat): (z: seq<byte>)
    ensures |z| == n && forall i :: 0 <= i < n ==> z[i] == 0
  {
    seq(n, _ => 0)
  }

  /** ftruncate: cut, or extended with zero bytes. */
  function Resized(s: seq<byte>, n: nat): (r: seq<byte>)
    ensures |r| == n && forall i :: 0 <= i < n ==> r[i] == if i < |s| then s[i] else 0
  {
    if n <= |s| then s[..n] else s + Zeros(n - |s|)
  }

  /** `data` written over `s` at `at`. */
  function Spliced(s: seq<byte>, at: nat, data: seq<byte>): (r: seq<byte>)
    requires at + |data| <= |s|
    ensures |r| == |s|
    ensures forall i :: 0 <= i < |s| ==> r[i] == if at <= i < at + |data| then data[i - at] else s[i]
  {
    s[..at] + data + s[at + |data|..]
  }

  method CheckWindow(requested: nat, pageSize: nat) returns (window: nat)
    requires pageSize > 0
    ensures IsWindow(window, requested, pageSize)
    ensures window > 0
  {
    if requested == 0 {
      window := 10 * pageSize;
      assert Product(10, pageSize) == window;
    } else {
      var index := requested / pageSize;
      var offset := requested - index * pageSize;
      if offset != 0 {
        index := index + 1;
      }
      window := pageSize * index;
      assert Product(index, pageSize) == window;
    }
  }

  class MMapFile {
    var bytes: seq<byte>          // the file
    var size: nat
    const window: nat
    const pageSize: nat
    var segmentStart: nat
    var segmentLen: nat
    var broken: bool              // a mapping failed and left no pointer that could be unmapped

    ghost predicate Valid()
      reads this
    {
      pageSize > 0 && window > 0 && size == |bytes| && !broken && WholePages(segmentStart, pageSize)
    }

    constructor (bytes: seq<byte>, requested: nat, pageSize: nat)
      requires pageSize > 0
      ensures Valid() && this.bytes == bytes && this.pageSize == pageSize
      ensures IsWindow(window, requested, pageSize)
    {
      this.bytes, size, this.pageSize := bytes, |bytes|, pageSize;
      var w := CheckWindow(requested, pageSize);
      window := w;
      segmentStart, segmentLen := 0, w;   // map_segment(0)
      assert Product(0, pageSize) == 0;
      broken := false;
    }

    predicate IsMapped(begin: nat, end: nat)
      reads this
    {
      begin >= segmentStart && end <= segmentStart + segmentLen
    }

    /** Reading through a pointer: inside the mapping and inside the file. */
    function Load(p: nat, n: nat): seq<byte>
      requires p + n <= segmentLen && segmentStart + p + n <= |bytes|
      reads this
    {
      bytes[segmentStart + p..segmentStart + p + n]
    }

    method Store(p: nat, data: seq<byte>)
      requires Valid() && p + |data| <= segmentLen && segmentStart + p + |data| <= |bytes|
      modifies this`bytes
      ensures Valid() && bytes == Spliced(old(bytes), segmentStart + p, data)
    {
      bytes := Spliced(bytes, segmentStart + p, data);
    }

    /** The pointer to `begin`, with everything up to `end` mapped. */
    method MapRange(begin: nat, end: nat) returns (p: nat)
      requires Valid() && begin < end
      modifies this`segmentStart, this`segmentLen
      ensures Valid()
      ensures segmentStart + p == begin && p + (end - begin) <= segmentLen
      ensures old(IsMapped(begin, end)) ==> segmentStart == old(segmentStart) && segmentLen == old(segmentLen)
      ensures !old(IsMapped(begin, end)) ==> begin - segmentStart < pageSize && segmentStart + segmentLen == end
    {
      if IsMapped(begin, end) {
        return begin - segmentStart;
      }
      var base := pageSize * (begin / pageSize);
      PageStart(begin, pageSize);
      segmentStart, segmentLen := base, end - base;
      p := begin - base;
    }

    /** One byte, remapped to its segment when it is not in view. */
    method At(index: nat) returns (r: Result<byte>)
      requires Valid()
      modifies this`segmentStart, this`segmentLen
      ensures Valid()
      ensures r == if index < size then Ok(bytes[index]) else OutOfRange
    {
      if index >= size {
        return OutOfRange;
      }
      if IsMapped(index, index + 1) {
        return Ok(Load(index - segmentStart, 1)[0]);
      }
      var offset, segment := index % window, index / window;
      SegmentHolds(index, window);
      var p := MapRange(segment * window, segment * window + window);
      r := Ok(Load(p + offset, 1)[0]);
    }

    /**
     A range as a whole. An empty one outside the mapping is mapped from its page on. At the page's start that fails,
     and then nothing can be mapped any more.
     */
    method AtRange(index: nat, length: nat) returns (r: Result<nat>)
      requires Valid()
      modifies this`segmentStart, this`segmentLen, this`broken
      ensures r != MapFailed ==> Valid()
      ensures broken == (r == MapFailed)
      ensures r == OutOfRange <==> index >= size || index + length > size
      ensures r == MapFailed ==> length == 0 && index % pageSize == 0
      ensures r.Ok? ==> segmentStart + r.value == index && r.value + length <= segmentLen
    {
      if index >= size || (length > 0 && index + length - 1 >= size) {
        return OutOfRange;
      }
      if length == 0 && !IsMapped(index, index) {
        PageStart(index, pageSize);
        var base := pageSize * (index / pageSize);
        if base == index {
          segmentStart, segmentLen, broken := 0, 0, true;
          return MapFailed;
        }
        segmentStart, segmentLen := base, index - base;
        return Ok(index - base);
      }
      if length == 0 {
        return Ok(index - segmentStart);
      }
      var p := MapRange(index, index + length);
      r := Ok(p);
    }

    /** The pointer to `index` and how far its segment reaches inside the file. */
    method AtSegment(index: nat) returns (r: Result<(nat, nat)>)
      requires Valid()
      modifies this`segmentStart, this`segmentLen
      ensures Valid()
      ensures r.Ok? <==> index < size
      ensures r.Ok? ==> segmentStart + r.value.0 == index && r.value.0 + r.value.1 <= segmentLen
      ensures r.Ok? ==> r.value.1 == Min(window * (index / window) + window, size) - index && r.value.1 > 0
    {
      if index >= size {
        return OutOfRange;
      }
      SegmentHolds(index, window);
      var segmentPos := (index / window) * window;
      var len := Min(segmentPos + window, size) - index;
      var p := MapRange(segmentPos, segmentPos + window);
      r := Ok((p + index - segmentPos, len));
    }

    method Resize(n: nat)
      requires Valid()
      modifies this
      ensures Valid() && bytes == Resized(old(bytes), n) && segmentStart == 0 && segmentLen == window
    {
      bytes, size := Resized(bytes, n), n;
      segmentStart, segmentLen := 0, window;
      assert Product(0, pageSize) == 0;
    }
  }

  /** The page of an index starts at a multiple of the page size, less than a page before it. */
  lemma PageStart(index: nat, pageSize: nat)
    requires pageSize > 0
    ensures var base := pageSize * (index / pageSize); base <= index < base + pageSize && WholePages(base, pageSize)
  {
    SegmentHolds(index, pageSize);
    assert Product(index / pageSize, pageSize) == pageSize * (index / pageSize);
  }

  function Min(a: int, b: int): int { if a < b then a else b }

  lemma SegmentHolds(index: nat, window: nat)
    requires window > 0
    ensures window * (index / window) + index % window == index
    ensures window * (index / window) == (index / window) * window
    ensures window * (index / window) <= index < window * (index / window) + window
  {
  }
}
