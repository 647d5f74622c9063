/** Chunked access to a windowed file, and substring search that crosses window boundaries. */
module FileBuffer {
  import opened Bytes
  import opened MMapFile

  class FileBuffer {
    const file: MMapFile
    const window: nat

    ghost predicate Valid()
      reads this, file
    {
      file.Valid() && window == file.window
    }

    constructor (bytes: seq<byte>, requested: nat, pageSize: nat)
      requires pageSize > 0
      ensures Valid() && fresh(file) && file.bytes == bytes && IsWindow(window, requested, pageSize)
    {
      var f := new MMapFile(bytes, requested, pageSize);
      file := f;
      window := f.window;
    }

    /** The bytes of the file, gathered chunk by chunk. */
    method Read(pos: nat, len: nat) returns (r: Result<seq<byte>>)
      requires Valid() && pos < TWO_64 && len < TWO_64 && |file.bytes| < TWO_64
      modifies file
      ensures Valid() && file.bytes == old(file.bytes)
      ensures r == if pos + len <= |file.bytes| then Ok(file.bytes[pos..pos + len]) else OutOfRange
    {
      if Sum(pos, len) > file.size {
        return OutOfRange;
      }
      var data, at, left := [], pos, len;
      while left > 0
        invariant Valid() && file.bytes == old(file.bytes)
        invariant left >= 0 && at + left == pos + len && Gathered(data, file.bytes, pos, at)
      {
        var chunk := file.AtSegment(at);
        if !chunk.Ok? {
          return OutOfRange;
        }
        var n := Min(chunk.value.1, left);
        GatheredMore(data, file.bytes, pos, at, n);
        data := data + file.Load(chunk.value.0, n);
        at, left := at + n, left - n;
      }
      assert len == 0 ==> file.bytes[pos..pos + len] == [];
      r := Ok(data);
    }

    /**
     The data put in place chunk by chunk; every other byte of the file stays. A sum of position and length that
     wraps passes the test, and the write fails where the file ends.
     */
    method Write(pos: nat, data: seq<byte>) returns (r: Result<nat>)
      requires Valid() && pos < TWO_64 && |data| < TWO_64 && |file.bytes| < TWO_64
      modifies file
      ensures Valid()
      ensures r == if pos + |data| <= old(|file.bytes|) then Ok(|data|) else OutOfRange
      ensures file.bytes ==
        if r.Ok? then Spliced(old(file.bytes), pos, data)
        else if Wraps(pos, |data|, old(|file.bytes|)) then
          Spliced(old(file.bytes), pos, data[..old(|file.bytes|) - pos])
        else old(file.bytes)
    {
      if Sum(pos, |data|) > file.size {
        return OutOfRange;
      }
      ghost var before := file.bytes;
      var at, done := pos, 0;
      while done < |data|
        invariant Valid() && 0 <= done <= |data| && at == pos + done
        invariant Partly(file.bytes, before, pos, data, done)
      {
        var chunk := file.AtSegment(at);
        if !chunk.Ok? {
          PartlyEnds(file.bytes, before, pos, data, done);
          return OutOfRange;
        }
        var n := Min(chunk.value.1, |data| - done);
        PartlyMore(file.bytes, before, pos, data, done, n);
        file.Store(chunk.value.0, data[done..done + n]);
        at, done := at + n, done + n;
      }
      PartlyDone(file.bytes, before, pos, data);
      r := Ok(|data|);
    }

    method SegmentStart(pos: nat) returns (start: nat)
      requires Valid()
      ensures start <= pos < start + window
    {
      SegmentHolds(pos, window);
      start := window * (pos / window);
    }

    /** A range of the file, mapped as a whole. */
    method Look(pos: nat, length: nat) returns (base: seq<byte>)
      requires Valid() && length > 0 && pos + length <= |file.bytes|
      modifies file
      ensures Valid() && file.bytes == old(file.bytes)
      ensures base == file.bytes[pos..pos + length]
    {
      var range := file.AtRange(pos, length);
      base := file.Load(range.value, length);
    }

    /**
     Search window by window, each look reaching past the window by the length of the pattern: the
     result is the first occurrence in [begin, end), or end.
     */
    method Find(begin: nat, end: nat, pattern: seq<byte>) returns (r: Result<nat>)
      requires Valid() && begin <= end <= |file.bytes|
      modifies file
      ensures r != MapFailed ==> Valid()
      ensures file.bytes == old(file.bytes) && file.broken == (r == MapFailed)
      ensures pattern != [] || begin < end ==> r == Ok(begin + Bytes.Find(file.bytes[begin..end], pattern))
      ensures pattern == [] && begin == end ==> r == Ok(end) || r == OutOfRange || r == MapFailed
      ensures r == OutOfRange ==> pattern == [] && begin == |file.bytes|
    {
      if |pattern| > end - begin {
        FindIs(file.bytes[begin..end], pattern, end - begin);
        return Ok(end);
      }
      ghost var all := file.bytes[begin..end];
      if begin == end {
        var range := file.AtRange(begin, 0);
        return if range.Ok? then Ok(end) else if range == OutOfRange then OutOfRange else MapFailed;
      }
      var segmentPos := SegmentStart(begin);
      var offset := begin - segmentPos;
      var finish := false;
      while true
        invariant Valid() && file.bytes == old(file.bytes)
        invariant 0 <= offset < window && begin <= segmentPos + offset < end
        invariant NoMatchBefore(all, pattern, segmentPos + offset - begin)
        invariant pattern == [] ==> segmentPos + offset == begin
        decreases end - segmentPos
      {
        var pos := segmentPos + offset;
        var length := window - offset + |pattern|;
        if pos + length >= end {
          length, finish := end - pos, true;
        } else {
          finish := false;
        }
        var base := Look(pos, length);
        var res := Bytes.Find(base, pattern);
        SliceOfSlice(file.bytes, begin, end, pos - begin, pos - begin + length);
        if pattern == [] {
          NothingIsFirst(base);
          NothingIsFirst(all);
        } else {
          LookDecides(all, pattern, pos - begin, base);
        }
        if res != |base| {
          return Ok(res + pos);
        }
        if finish {
          break;
        }
        offset := 0;
        segmentPos := segmentPos + window;
      }
      r := Ok(end);
    }
  }

  /** A sum of two 64-bit numbers. */
  function Sum(a: nat, b: nat): int { if a + b < TWO_64 then a + b else a + b - TWO_64 }

  /** From a position inside the file, a length so large that the sum wraps to one inside the file again. */
  predicate Wraps(pos: nat, len: nat, size: nat) { pos < size && pos + len >= TWO_64 && Sum(pos, len) <= size }

  /** The bytes from `pos` to `at`. */
  ghost predicate Gathered(data: seq<byte>, bytes: seq<byte>, pos: nat, at: int) {
    if at == pos then data == [] else pos < at <= |bytes| && data == bytes[pos..at]
  }

  lemma GatheredMore(data: seq<byte>, bytes: seq<byte>, pos: nat, at: nat, n: nat)
    requires Gathered(data, bytes, pos, at) && n > 0 && at + n <= |bytes|
    ensures Gathered(data + bytes[at..at + n], bytes, pos, at + n)
  {
  }

  lemma PartlyEnds(now: seq<byte>, before: seq<byte>, pos: nat, data: seq<byte>, done: nat)
    requires Partly(now, before, pos, data, done) && pos + done >= |before|
    ensures now == if pos < |before| then Spliced(before, pos, data[..|before| - pos]) else before
  {
    assert done > 0 ==> done == |before| - pos;
  }

  /** The first `done` bytes of the data are in place. */
  ghost predicate Partly(now: seq<byte>, before: seq<byte>, pos: nat, data: seq<byte>, done: int) {
    && |now| == |before| && 0 <= done <= |data|
    && (if done == 0 then now == before else pos + done <= |before| && now == Spliced(before, pos, data[..done]))
  }

  lemma PartlyMore(now: seq<byte>, before: seq<byte>, pos: nat, data: seq<byte>, done: nat, n: nat)
    requires Partly(now, before, pos, data, done) && n > 0 && done + n <= |data| && pos + done + n <= |before|
    ensures Partly(Spliced(now, pos + done, data[done..done + n]), before, pos, data, done + n)
  {
    SplicedOnward(before, pos, data, done, n);
    if done == 0 {
      assert Spliced(before, pos, data[..0]) == before;
    }
  }

  lemma PartlyDone(now: seq<byte>, before: seq<byte>, pos: nat, data: seq<byte>)
    requires Partly(now, before, pos, data, |data|) && pos <= |before|
    ensures pos + |data| <= |before| && now == Spliced(before, pos, data)
  {
    assert data[..|data|] == data;
    if data == [] {
      assert Spliced(before, pos, data) == before;
    }
  }

  lemma SplicedOnward(s: seq<byte>, pos: nat, data: seq<byte>, done: nat, n: nat)
    requires done + n <= |data| && pos + done + n <= |s|
    ensures Spliced(Spliced(s, pos, data[..done]), pos + done, data[done..done + n]) == Spliced(s, pos, data[..done + n])
  {
  }

  lemma NothingIsFirst(s: seq<byte>)
    ensures Find(s, []) == 0
  {
    if s != [] {
      assert s[0..0] == [];
      FindIs(s, [], 0);
    }
  }

  ghost predicate NoMatchBefore(all: seq<byte>, p: seq<byte>, n: int) {
    forall j :: 0 <= j < n ==> !MatchAt(all, p, j)
  }

  /** A part of the text has the matches that the whole text has there. */
  lemma PartMatches(all: seq<byte>, p: seq<byte>, at: nat, part: seq<byte>, j: nat)
    requires at + |part| <= |all| && part == all[at..at + |part|] && j + |p| <= |part|
    ensures MatchAt(part, p, j) <==> MatchAt(all, p, at + j)
  {
    SliceOfSlice(all, at, at + |part|, j, j + |p|);
  }

  /**
   Looking at a part, with no match before it: a hit is the first occurrence in the whole text; a miss
   rules out every start that fits in the part, and every start at all when the part runs to the end.
   */
  lemma LookDecides(all: seq<byte>, p: seq<byte>, at: nat, part: seq<byte>)
    requires p != [] && at + |part| <= |all| && part == all[at..at + |part|]
    requires NoMatchBefore(all, p, at)
    ensures var res := Find(part, p);
      && (res < |part| ==> Find(all, p) == at + res)
      && (res == |part| ==> NoMatchBefore(all, p, at + |part| - |p| + 1))
      && (res == |part| && at + |part| == |all| ==> Find(all, p) == |all|)
  {
    var res := Find(part, p);
    forall j | 0 <= j < |all| && j < at + res && j + |p| <= at + |part|
      ensures !MatchAt(all, p, j)
    {
      if at <= j {
        PartMatches(all, p, at, part, j - at);
      }
    }
    if res < |part| {
      PartMatches(all, p, at, part, res);
      FindIs(all, p, at + res);
    } else if at + |part| == |all| {
      FindIs(all, p, |all|);
    }
  }
}
