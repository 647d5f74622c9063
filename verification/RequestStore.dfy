/** The request's writer, its second writer for a cached POST, and its reader, as they advance through a buffer. */
module RequestStore {
  import opened Common
  import opened Bytes
  import opened Wire
  import opened DataBuffer
  import opened RequestFormat
  import MMapFile

  /** A whole buffer that starts at index 0; `window` is 0 for one in memory. */
  class Buffer {
    var bytes: seq<byte>
    const window: nat

    constructor (window: nat)
      ensures bytes == [] && this.window == window
    {
      bytes := [];
      this.window := window;
    }

    function AsStore(): (st: Store)
      reads this
      ensures st.bytes == bytes && (st.Windowed? ==> st.window > 0)
    {
      if window > 0 then Windowed(bytes, window) else Flat(bytes)
    }

    method Resize(n: nat)
      modifies this
      ensures bytes == MMapFile.Resized(old(bytes), n)
    {
      bytes := MMapFile.Resized(bytes, n);
    }

    method Write(pos: nat, data: bytes) returns (n: nat)
      modifies this
      ensures bytes == Put(old(bytes), pos, data) && n == Available(old(bytes), pos, |data|)
    {
      n := Available(bytes, pos, |data|);
      bytes := Put(bytes, pos, data);
    }
  }

  /** Everything up to the position is `done`. */
  ghost predicate Written(s: bytes, pos: nat, done: bytes) {
    pos == |done| <= |s| && s[..pos] == done
  }

  method SerializeInt(buffer: Buffer, pos: nat, val: nat, ghost done: bytes) returns (next: nat)
    requires Written(buffer.bytes, pos, done) && pos + 8 <= |buffer.bytes| && val < TWO_64
    modifies buffer
    ensures Written(buffer.bytes, next, done + Int(val)) && |buffer.bytes| == old(|buffer.bytes|)
  {
    PutFits(buffer.bytes, pos, Int(val));
    var n := buffer.Write(pos, Int(val));
    next := pos + n;
  }

  method SerializeString(buffer: Buffer, pos: nat, val: bytes, ghost done: bytes) returns (next: nat)
    requires Written(buffer.bytes, pos, done) && pos + 8 + |val| <= |buffer.bytes| < TWO_64
    modifies buffer
    ensures Written(buffer.bytes, next, done + Str(val)) && |buffer.bytes| == old(|buffer.bytes|)
  {
    next := SerializeInt(buffer, pos, |val|, done);
    PutFits(buffer.bytes, next, val);
    Assoc(done, Int(|val|), val);
    var n := buffer.Write(next, val);
    next := next + n;
  }

  method SerializePairs(buffer: Buffer, pos: nat, ps: seq<Pair>, ghost done: bytes) returns (next: nat)
    requires Written(buffer.bytes, pos, done) && pos + PairsSize(ps) <= |buffer.bytes| < TWO_64
    modifies buffer
    ensures Written(buffer.bytes, next, done + PairsBytes(ps)) && |buffer.bytes| == old(|buffer.bytes|)
  {
    next := pos;
    assert ps[..0] == [] && done + [] == done;
    for i := 0 to |ps|
      invariant |buffer.bytes| == old(|buffer.bytes|)
      invariant Written(buffer.bytes, next, done + PairsBytes(ps[..i]))
    {
      ghost var so := done + PairsBytes(ps[..i]);
      PairAt(ps, i, done);
      next := SerializeString(buffer, next, ps[i].0, so);
      next := SerializeString(buffer, next, ps[i].1, so + Str(ps[i].0));
    }
    assert ps[..|ps|] == ps;
  }

  lemma PairAt(ps: seq<Pair>, i: nat, done: bytes)
    requires i < |ps|
    ensures done + PairsBytes(ps[..i + 1]) == done + PairsBytes(ps[..i]) + Str(ps[i].0) + Str(ps[i].1)
    ensures PairsSize(ps[..i]) + |ps[i].0| + |ps[i].1| + 16 <= PairsSize(ps)
  {
    assert ps[..i + 1] == ps[..i] + [ps[i]];
    PairsBytesAppend(ps[..i], ps[i]);
    Assoc(done, PairsBytes(ps[..i]), PairBytes(ps[i]));
    Assoc(done + PairsBytes(ps[..i]), Str(ps[i].0), Str(ps[i].1));
    PairsSizeSplit(ps, i + 1);
  }

  lemma {:induction false} PairsSizeSplit(ps: seq<Pair>, i: nat)
    requires i <= |ps|
    ensures PairsSize(ps) == PairsSize(ps[..i]) + PairsSize(ps[i..])
  {
    if i > 0 {
      PairsSizeSplit(ps[1..], i - 1);
      assert ps[..i][1..] == ps[1..][..i - 1] && ps[1..][i - 1..] == ps[i..];
    } else {
      assert ps[0..] == ps;
    }
  }

  method SizeOfPairs(ps: seq<Pair>) returns (n: nat)
    ensures n == PairsSize(ps)
  {
    n := 0;
    assert ps[0..] == ps;
    for i := 0 to |ps|
      invariant n + PairsSize(ps[i..]) == PairsSize(ps)
    {
      assert ps[i..][1..] == ps[i + 1..];
      n := n + |ps[i].0| + |ps[i].1| + 16;
    }
  }

  method SizeOfFiles(fs: seq<File>) returns (n: nat)
    ensures n == FilesSize(fs)
  {
    n := 0;
    assert fs[0..] == fs;
    for i := 0 to |fs|
      invariant n + FilesSize(fs[i..]) == FilesSize(fs)
    {
      assert fs[i..][1..] == fs[i + 1..];
      n := n + 8 + |fs[i].name| + 8 + |fs[i].remoteName| + 8 + |fs[i].mime| + 16;
    }
  }

  lemma SectionSize(ps: seq<Pair>)
    ensures |Section(ps)| == 8 + PairsSize(ps)
  {
  }

  method SerializeSection(buffer: Buffer, pos: nat, ps: seq<Pair>, ghost done: bytes) returns (next: nat)
    requires Written(buffer.bytes, pos, done) && pos + 8 + PairsSize(ps) <= |buffer.bytes| < TWO_64
    modifies buffer
    ensures Written(buffer.bytes, next, done + Section(ps)) && |buffer.bytes| == old(|buffer.bytes|)
  {
    var size := SizeOfPairs(ps);
    next := SerializeInt(buffer, pos, size, done);
    Assoc(done, Int(size), PairsBytes(ps));
    next := SerializePairs(buffer, next, ps, done + Int(size));
  }

  /** The body, chunk by chunk, after its length. */
  method SerializeBuffer(buffer: Buffer, pos: nat, src: View, ghost done: bytes) returns (next: nat)
    requires src.Valid() && Written(buffer.bytes, pos, done)
    requires pos + 8 + |src.Bytes()| <= |buffer.bytes| < TWO_64
    modifies buffer
    ensures Written(buffer.bytes, next, done + Int(|src.Bytes()|) + src.Bytes()) && |buffer.bytes| == old(|buffer.bytes|)
  {
    next := SerializeInt(buffer, pos, src.end - src.begin, done);
    ghost var so, goal := done + Int(|src.Bytes()|), done + Int(|src.Bytes()|) + src.Bytes();
    var it := new SegmentIterator(src);
    ChunksPartition(src);
    while !it.done
      invariant it.Valid() && |buffer.bytes| == old(|buffer.bytes|)
      invariant Written(buffer.bytes, next, so) && so + Concat(it.Rest()) == goal
      decreases |it.Rest()|
    {
      ghost var rest := it.Rest();
      var chunk := it.Current();
      ConcatStep(so, rest);
      PutFits(buffer.bytes, next, chunk);
      var n := buffer.Write(next, chunk);
      next := next + n;
      so := so + chunk;
      it.Next();
    }
  }

  method SerializeFiles(buffer: Buffer, pos: nat, fs: seq<File>, bodyBegin: nat, ghost done: bytes) returns (next: nat)
    requires Written(buffer.bytes, pos, done) && pos + 8 + FilesSize(fs) <= |buffer.bytes| < TWO_64
    modifies buffer
    ensures Written(buffer.bytes, next, done + FilesSection(fs, bodyBegin)) && |buffer.bytes| == old(|buffer.bytes|)
  {
    var size := SizeOfFiles(fs);
    next := SerializeInt(buffer, pos, size, done);
    ghost var so, goal := done + Int(size), done + FilesSection(fs, bodyBegin);
    Assoc(done, Int(size), FilesBytes(fs, bodyBegin));
    assert fs[0..] == fs;
    for i := 0 to |fs|
      invariant |buffer.bytes| == old(|buffer.bytes|) && |goal| <= |buffer.bytes|
      invariant Written(buffer.bytes, next, so) && so + FilesBytes(fs[i..], bodyBegin) == goal
    {
      var f := fs[i];
      assert fs[i..][1..] == fs[i + 1..];
      Assoc(so, FileBytes(f, bodyBegin), FilesBytes(fs[i + 1..], bodyBegin));
      next := SerializeFile(buffer, next, f, bodyBegin, so);
      so := so + FileBytes(f, bodyBegin);
    }
  }

  method SerializeFile(buffer: Buffer, pos: nat, f: File, bodyBegin: nat, ghost done: bytes) returns (next: nat)
    requires Written(buffer.bytes, pos, done) && pos + |FileBytes(f, bodyBegin)| <= |buffer.bytes| < TWO_64
    modifies buffer
    ensures Written(buffer.bytes, next, done + FileBytes(f, bodyBegin)) && |buffer.bytes| == old(|buffer.bytes|)
  {
    var off, len := Offset(f, bodyBegin), (f.end - f.begin) % TWO_64;
    FileChain(done, Str(f.name), Str(f.remoteName), Str(f.mime), Int(off), Int(len));
    next := SerializeString(buffer, pos, f.name, done);
    next := SerializeString(buffer, next, f.remoteName, done + Str(f.name));
    next := SerializeString(buffer, next, f.mime, done + Str(f.name) + Str(f.remoteName));
    next := SerializeInt(buffer, next, off, done + Str(f.name) + Str(f.remoteName) + Str(f.mime));
    next := SerializeInt(buffer, next, len, done + Str(f.name) + Str(f.remoteName) + Str(f.mime) + Int(off));
  }

  lemma FileChain(d: bytes, n: bytes, r: bytes, m: bytes, o: bytes, l: bytes)
    ensures d + n + r + m + o + l == d + (n + (r + (m + (o + l))))
  {
  }

  // ----- receiving a body -----

  /** What the stream gives to its i-th read when n bytes are asked for. */
  type Stream = (nat, nat) -> bytes

  ghost predicate NeverMore(stream: Stream) {
    forall i, n :: |stream(i, n)| <= n
  }

  /** The bytes that come, read by read, from the i-th on. */
  function Received(stream: Stream, i: nat, asked: seq<nat>): bytes
    decreases |asked|
  {
    if asked == [] then [] else stream(i, asked[0]) + Received(stream, i + 1, asked[1..])
  }

  function Total(asked: seq<nat>): nat { if asked == [] then 0 else asked[0] + Total(asked[1..]) }

  function Lengths(cs: seq<bytes>): (asked: seq<nat>)
    ensures |asked| == |cs|
  {
    seq(|cs|, i requires 0 <= i < |cs| => |cs[i]|)
  }

  /** A segment whose first bytes were overwritten. */
  function Over(data: bytes, c: bytes): bytes
    requires |data| <= |c|
  {
    data + c[|data|..]
  }

  /** The segments when each was asked of the stream: a short read leaves the end of its segment as it was. */
  ghost function Filled(stream: Stream, i: nat, cs: seq<bytes>): bytes
    requires NeverMore(stream)
    decreases |cs|
  {
    if cs == [] then [] else Over(stream(i, |cs[0]|), cs[0]) + Filled(stream, i + 1, cs[1..])
  }

  /** Every read from the i-th on is a full one. */
  ghost predicate AllFull(stream: Stream, i: nat, cs: seq<bytes>)
    decreases |cs|
  {
    cs == [] || (|stream(i, |cs[0]|)| == |cs[0]| && AllFull(stream, i + 1, cs[1..]))
  }

  /** All bytes come exactly if every read is a full one; then they are what the segments hold. */
  lemma {:induction false} FullReads(stream: Stream, i: nat, cs: seq<bytes>)
    requires NeverMore(stream)
    ensures var asked := Lengths(cs);
      && |Received(stream, i, asked)| <= Total(asked)
      && (|Received(stream, i, asked)| == Total(asked) <==> AllFull(stream, i, cs))
      && (AllFull(stream, i, cs) ==> Received(stream, i, asked) == Filled(stream, i, cs))
    decreases |cs|
  {
    if cs != [] {
      assert Lengths(cs)[1..] == Lengths(cs[1..]);
      FullReads(stream, i + 1, cs[1..]);
      var data := stream(i, |cs[0]|);
      assert |data| == |cs[0]| ==> Over(data, cs[0]) == data;
    }
  }

  lemma {:induction false} TotalOf(cs: seq<bytes>)
    ensures Total(Lengths(cs)) == |Concat(cs)|
  {
    if cs != [] {
      assert Lengths(cs)[1..] == Lengths(cs[1..]);
      TotalOf(cs[1..]);
    }
  }

  /** The segments of a view behind the front of its buffer. */
  lemma TailChunks(v: View, front: bytes)
    requires v.Valid() && v.begin == |front| && v.end == |v.store.bytes| && v.store.bytes[..|front|] == front
    ensures v.store.bytes == front + Concat(v.Chunks()) && Total(Lengths(v.Chunks())) == v.end - v.begin
  {
    ChunksPartition(v);
    TotalOf(v.Chunks());
  }

  lemma PutOver(a: bytes, c: bytes, rest: bytes, data: bytes)
    requires |data| <= |c|
    ensures Put(a + (c + rest), |a|, data) == (a + Over(data, c)) + rest
  {
    var s := a + (c + rest);
    if data != [] {
      assert s[..|a|] == a && data[..|data|] == data && s[|a| + |data|..] == c[|data|..] + rest;
    } else {
      assert Over(data, c) == c;
    }
  }

  /** Asks the stream for the buffer behind `begin`, segment by segment, and counts the bytes that come. */
  method ReceiveBody(buffer: Buffer, begin: nat, stream: Stream, ghost front: bytes) returns (n: nat, ghost chunks: seq<bytes>)
    requires begin == |front| <= |buffer.bytes| && buffer.bytes[..begin] == front && NeverMore(stream)
    modifies buffer
    ensures chunks == View(old(buffer.AsStore()), begin, old(|buffer.bytes|)).Chunks()
    ensures Total(Lengths(chunks)) == old(|buffer.bytes|) - begin
    ensures n == |Received(stream, 0, Lengths(chunks))|
    ensures buffer.bytes == front + Filled(stream, 0, chunks)
  {
    n := 0;
    var view := View(buffer.AsStore(), begin, |buffer.bytes|);
    var it := new SegmentIterator(view);
    chunks := view.Chunks();
    TailChunks(view, front);
    ghost var so := front;
    var i := 0;
    while !it.done
      invariant it.Valid() && it.view == view && (!it.done ==> it.posBegin == |so|)
      invariant buffer.bytes == so + Concat(it.Rest())
      invariant so + Filled(stream, i, it.Rest()) == front + Filled(stream, 0, chunks)
      invariant n + |Received(stream, i, Lengths(it.Rest()))| == |Received(stream, 0, Lengths(chunks))|
      decreases |it.Rest()|
    {
      ghost var rest := it.Rest();
      var chunk := it.Current();
      var data := stream(i, |chunk|);
      var at := it.posBegin;
      RestChunk(it);
      SegmentTaken(stream, i, so, rest);
      var got := buffer.Write(at, data);
      n := n + |data|;
      so, i := so + Over(data, chunk), i + 1;
      it.Next();
    }
    assert so + [] == so;
  }

  /** One segment: what is written, what is counted, and what is still to come. */
  lemma SegmentTaken(stream: Stream, i: nat, so: bytes, rest: seq<bytes>)
    requires NeverMore(stream) && rest != []
    ensures var data := stream(i, |rest[0]|);
      && Put(so + Concat(rest), |so|, data) == (so + Over(data, rest[0])) + Concat(rest[1..])
      && so + Filled(stream, i, rest) == (so + Over(data, rest[0])) + Filled(stream, i + 1, rest[1..])
      && |Received(stream, i, Lengths(rest))| == |data| + |Received(stream, i + 1, Lengths(rest[1..]))|
  {
    var data := stream(i, |rest[0]|);
    PutOver(so, rest[0], Concat(rest[1..]), data);
    Assoc(so, Over(data, rest[0]), Filled(stream, i + 1, rest[1..]));
    assert Lengths(rest)[1..] == Lengths(rest[1..]);
  }

  lemma RestChunk(it: SegmentIterator)
    requires it.Valid() && !it.done
    ensures it.Rest() != [] && |it.Rest()[0]| == it.posEnd - it.posBegin
  {
  }

  /** Some read came short. */
  ghost predicate Short(stream: Stream, asked: seq<nat>) {
    exists k :: 0 <= k < |asked| && |stream(k, asked[k])| < asked[k]
  }

  /** A read from the i-th on that is short. */
  lemma {:induction false} ShortFrom(stream: Stream, i: nat, cs: seq<bytes>) returns (k: nat)
    requires NeverMore(stream) && !AllFull(stream, i, cs)
    ensures k < |cs| && |stream(i + k, |cs[k]|)| < |cs[k]|
    decreases |cs|
  {
    if |stream(i, |cs[0]|)| == |cs[0]| {
      var n := ShortFrom(stream, i + 1, cs[1..]);
      k := n + 1;
    } else {
      k := 0;
    }
  }

  lemma {:induction false} FullAt(stream: Stream, i: nat, cs: seq<bytes>, k: nat)
    requires AllFull(stream, i, cs) && k < |cs|
    ensures |stream(i + k, |cs[k]|)| == |cs[k]|
    decreases |cs|
  {
    if k > 0 {
      FullAt(stream, i + 1, cs[1..], k - 1);
    }
  }

  lemma ShortExactly(stream: Stream, cs: seq<bytes>)
    requires NeverMore(stream)
    ensures Short(stream, Lengths(cs)) <==> !AllFull(stream, 0, cs)
  {
    var asked := Lengths(cs);
    if AllFull(stream, 0, cs) {
      forall k | 0 <= k < |asked| ensures |stream(k, asked[k])| == asked[k] { FullAt(stream, 0, cs, k); }
    } else {
      var k := ShortFrom(stream, 0, cs);
      assert |stream(k, asked[k])| < asked[k];
    }
  }

  /** The bytes that come are all that were asked for exactly if no read is short; then the segments hold them. */
  lemma ReadsDecide(stream: Stream, cs: seq<bytes>)
    requires NeverMore(stream)
    ensures var asked := Lengths(cs);
      && (|Received(stream, 0, asked)| == Total(asked) <==> !Short(stream, asked))
      && (!Short(stream, asked) ==> Received(stream, 0, asked) == Filled(stream, 0, cs))
  {
    FullReads(stream, 0, cs);
    ShortExactly(stream, cs);
  }

  /** Whatever a body of that size gives, the sizes stay 64-bit numbers. */
  ghost predicate Bounded(parsed: View -> Result<(seq<File>, seq<Pair>)>, other: nat, size: nat) {
    forall v: View :: v.Valid() && |v.Bytes()| == size && parsed(v).Ok? ==>
      other + FilesSize(parsed(v).value.0) + PairsSize(parsed(v).value.1) < TWO_64
  }

  lemma BodyOf(s: bytes, front: bytes, data: bytes)
    requires s == front + data
    ensures s[|front|..|s|] == data
  {
  }

  // ----- reading -----

  method ParseInt(buffer: Buffer, pos: nat) returns (val: int, next: nat)
    ensures (val, next) == ReadInt(buffer.bytes, pos)
  {
    var n := Available(buffer.bytes, pos, 8);
    val := if n == 0 then 0 else FromLittleEndian(buffer.bytes[pos..pos + n]);
    next := pos + n;
  }

  method ParseString(buffer: Buffer, pos: nat) returns (r: Result<(bytes, nat)>)
    ensures r == ReadStr(buffer.bytes, pos)
  {
    var len, next := ParseInt(buffer, pos);
    if len < 0 || len > MAX_STRING {
      return Err(TooLong);
    }
    var n := Available(buffer.bytes, next, len);
    r := Ok(((if n == 0 then [] else buffer.bytes[next..next + n]) + ZeroBytes(len - n), next + n));
  }

  /** A section read into what is already there. */
  function SectionInto(s: bytes, pos: nat, add: Add, q: seq<Pair>): Result<(seq<Pair>, nat)> {
    var head := ReadInt(s, pos);
    if SectionEnd(head) > |s| then Err(CannotParse) else ReadPairs(s, head.1, SectionEnd(head), add, q)
  }

  function FilesInto(s: bytes, pos: nat, bodyBegin: nat, less: Less, q: seq<File>): Result<(seq<File>, nat)> {
    var head := ReadInt(s, pos);
    if SectionEnd(head) > |s| then Err(CannotParse) else ReadFiles(s, head.1, SectionEnd(head), bodyBegin, less, q)
  }

  method ParsePairs(buffer: Buffer, pos: nat, add: Add, already: seq<Pair>) returns (r: Result<(seq<Pair>, nat)>)
    ensures r == SectionInto(buffer.bytes, pos, add, already)
  {
    var size, next := ParseInt(buffer, pos);
    var end := SectionEnd((size, next));
    if end > |buffer.bytes| {
      return Err(CannotParse);
    }
    var q := already;
    ghost var goal := ReadPairs(buffer.bytes, next, end, add, already);
    while next < end
      invariant ReadPairs(buffer.bytes, next, end, add, q) == goal
      decreases end - next
    {
      PairsStep(buffer.bytes, next, end, add, q);
      var name := ParseString(buffer, next);
      if name.Err? {
        return Err(name.error);
      }
      var value := ParseString(buffer, name.value.1);
      if value.Err? {
        return Err(value.error);
      }
      q := add(q, (name.value.0, value.value.0));
      next := value.value.1;
    }
    r := Ok((q, next));
  }

  method ParseFile(buffer: Buffer, pos: nat, bodyBegin: nat) returns (r: Result<(File, nat)>)
    ensures r == ReadFile(buffer.bytes, pos, bodyBegin)
  {
    var name := ParseString(buffer, pos);
    if name.Err? {
      return Err(name.error);
    }
    var remoteName := ParseString(buffer, name.value.1);
    if remoteName.Err? {
      return Err(remoteName.error);
    }
    var mime := ParseString(buffer, remoteName.value.1);
    if mime.Err? {
      return Err(mime.error);
    }
    var f := File(name.value.0, remoteName.value.0, mime.value.0, 0, 0);
    assert ReadNames(buffer.bytes, pos) == Ok((f, mime.value.1));
    r := ParsePlace(buffer, f, mime.value.1, bodyBegin);
  }

  method ParsePlace(buffer: Buffer, f: File, pos: nat, bodyBegin: nat) returns (r: Result<(File, nat)>)
    ensures r == ReadPlace(buffer.bytes, f, pos, bodyBegin)
  {
    var offset, next := ParseInt(buffer, pos);
    var length, after := ParseInt(buffer, next);
    var begin, end := (offset + bodyBegin) % TWO_64, (offset + length + bodyBegin) % TWO_64;
    if end > |buffer.bytes| {
      return Err(OutOfRange);
    }
    r := Ok((f.(begin := begin, end := end), after));
  }

  method ParseFiles(buffer: Buffer, pos: nat, bodyBegin: nat, less: Less, already: seq<File>)
    returns (r: Result<(seq<File>, nat)>)
    ensures r == FilesInto(buffer.bytes, pos, bodyBegin, less, already)
  {
    var size, next := ParseInt(buffer, pos);
    var end := SectionEnd((size, next));
    if end > |buffer.bytes| {
      return Err(CannotParse);
    }
    r := ParseFilesWithin(buffer, next, end, bodyBegin, less, already);
  }

  method ParseFilesWithin(buffer: Buffer, pos: nat, end: nat, bodyBegin: nat, less: Less, already: seq<File>)
    returns (r: Result<(seq<File>, nat)>)
    requires end <= |buffer.bytes|
    ensures r == ReadFiles(buffer.bytes, pos, end, bodyBegin, less, already)
  {
    var q, next := already, pos;
    while next < end
      invariant ReadFiles(buffer.bytes, next, end, bodyBegin, less, q) == ReadFiles(buffer.bytes, pos, end, bodyBegin, less, already)
      decreases end - next
    {
      FilesStep(buffer.bytes, next, end, bodyBegin, less, q);
      var file := ParseFile(buffer, next, bodyBegin);
      if file.Err? {
        return Err(file.error);
      }
      q := InsertFile(less, q, file.value.0);
      next := file.value.1;
    }
    r := Ok((q, next));
  }

  /** parse into a request that may hold something: maps keep what they have, arguments are added. */
  function ParseInto(f: Fields, store: Store, headerLess: Less, less: Less): Result<Fields> {
    var s := store.bytes;
    var h := SectionInto(s, 0, AddSorted(headerLess), f.headers);
    if h.Err? then Err(h.error)
    else
      var c := SectionInto(s, h.value.1, AddSorted(less), f.cookies);
      if c.Err? then Err(c.error)
      else
        var v := SectionInto(s, c.value.1, AddSorted(less), f.vars);
        if v.Err? then Err(v.error)
        else
          var head := ReadInt(s, v.value.1);
          RestInto(f.(headers := h.value.0, cookies := c.value.0, vars := v.value.0), store, less, head.1, SectionEnd(head))
  }

  function RestInto(f: Fields, store: Store, less: Less, begin: nat, end: nat): Result<Fields> {
    if end > |store.bytes| then Err(CannotParse)
    else
      var files := FilesInto(store.bytes, end, begin, less, f.files);
      if files.Err? then Err(files.error)
      else
        var args := SectionInto(store.bytes, files.value.1, AddArg(), f.args);
        if args.Err? then Err(args.error)
        else Ok(f.(body := View(store, begin, end), files := files.value.0, args := args.value.0))
  }

  /** Into a cleared request it is the format's reading. */
  lemma ParseIntoCleared(f: Fields, store: Store, headerLess: Less, less: Less)
    requires f.headers == f.cookies == f.vars == f.args == [] && f.files == []
    ensures ParseInto(f, store, headerLess, less) == RequestFormat.Parse(store, headerLess, less)
  {
    var s := store.bytes;
    var h := ReadSection(s, 0, AddSorted(headerLess));
    if h.Ok? {
      var c := ReadSection(s, h.value.1, AddSorted(less));
      if c.Ok? {
        var v := ReadSection(s, c.value.1, AddSorted(less));
        if v.Ok? {
          var head := ReadInt(s, v.value.1);
          RestIntoCleared(f, store, less, h.value.0, c.value.0, v.value.0, head.1, SectionEnd(head));
        }
      }
    }
  }

  lemma RestIntoCleared(f: Fields, store: Store, less: Less, headers: seq<Pair>, cookies: seq<Pair>, vars: seq<Pair>, begin: nat, end: nat)
    requires f.args == [] && f.files == []
    ensures RestInto(f.(headers := headers, cookies := cookies, vars := vars), store, less, begin, end) ==
      ParseRest(store, less, headers, cookies, vars, begin, end)
  {
    RestUnfolds(store, less, headers, cookies, vars, begin, end);
  }

  // ----- the request -----

  datatype Outcome = Done | Failed(error: Error) | ShortRead

  class Request {
    var headers: seq<Pair>
    var cookies: seq<Pair>
    var vars: seq<Pair>
    var body: View
    var files: seq<File>
    var args: seq<Pair>

    constructor ()
      ensures headers == cookies == vars == args == [] && files == []
    {
      headers, cookies, vars, args, files := [], [], [], [], [];
      body := View(Flat([]), 0, 0);
    }

    ghost function Stored(): Fields
      reads this
    {
      Fields(headers, cookies, vars, body, files, args)
    }

    /** Sizes the buffer for the maps and `addSize` more, and writes the maps. */
    method SerializeEnv(buffer: Buffer, addSize: nat) returns (pos: nat)
      requires EnvSize(Stored()) + addSize < TWO_64
      modifies buffer
      ensures |buffer.bytes| == EnvSize(Stored()) + addSize
      ensures Written(buffer.bytes, pos, EnvBytes(Stored()))
    {
      var h := SizeOfPairs(headers);
      var c := SizeOfPairs(cookies);
      var v := SizeOfPairs(vars);
      buffer.Resize(addSize + h + c + v + 24);
      SectionSize(headers);
      SectionSize(cookies);
      SectionSize(vars);
      assert |buffer.bytes| == EnvSize(Stored()) + addSize;
      pos := SerializeSection(buffer, 0, headers, []);
      assert [] + Section(headers) == Section(headers);
      assert pos == 8 + h;
      pos := SerializeSection(buffer, pos, cookies, Section(headers));
      assert pos == 16 + h + c;
      pos := SerializeSection(buffer, pos, vars, Section(headers) + Section(cookies));
      Assoc(Section(headers), Section(cookies), Section(vars));
    }

    /** The buffer is exactly the encoding: the position ends at its size and no write is cut short. */
    method Serialize(buffer: Buffer)
      requires body.Valid() && |Encode(Stored())| < TWO_64
      modifies buffer
      ensures buffer.bytes == Encode(Stored())
    {
      EncodeSize(Stored());
      var fileSize := SizeOfFiles(files);
      var argSize := SizeOfPairs(args);
      var addSize := 8 + (body.end - body.begin) + 8 + fileSize + 8 + argSize;
      var pos := SerializeEnv(buffer, addSize);
      ghost var env, n := EnvBytes(Stored()), Int(|body.Bytes()|);
      pos := SerializeBuffer(buffer, pos, body, env);
      pos := SerializeTail(buffer, pos, env + n + body.Bytes());
      EncodeChain(env, n, body.Bytes(), FilesSection(files, body.begin), Section(args));
      assert buffer.bytes[..pos] == buffer.bytes;
    }

    /**
     attach for POST and PUT, after the environment was read into the maps: the body comes from the stream,
     straight into the cache's buffer if there is one, and `parsed` is what the body and the query give.
     */
    method Attach(cache: Buffer?, size: nat, stream: Stream, parsed: View -> Result<(seq<File>, seq<Pair>)>)
      returns (r: Outcome, ghost entity: View, ghost asked: seq<nat>)
      requires EnvSize(Stored()) + 8 + size < TWO_64 && NeverMore(stream)
      requires Bounded(parsed, EnvSize(Stored()) + 24 + size, size)
      modifies this, cache
      ensures headers == old(headers) && cookies == old(cookies) && vars == old(vars)
      ensures Total(asked) == size
      ensures r == ShortRead <==> Short(stream, asked)
      ensures r != ShortRead ==> entity.Valid() && entity.Bytes() == Received(stream, 0, asked) && |entity.Bytes()| == size
      ensures r.Failed? ==> parsed(entity) == Err(r.error)
      ensures r == Done ==>
        && parsed(entity) == Ok((files, args))
        && body.Valid() && body.Bytes() == entity.Bytes() && body.begin == entity.begin
        && (cache != null ==> body.store.bytes == cache.bytes == Encode(Stored()))
    {
      ghost var env := EnvBytes(Stored());
      var ok;
      ok, asked := ReceiveInto(cache, size, stream);
      entity := body;
      if !ok {
        return ShortRead, entity, asked;
      }
      var p := parsed(body);
      if p.Err? {
        return Failed(p.error), entity, asked;
      }
      r := Done;
      TakeParsed(cache, p.value.0, p.value.1, env, size);
    }

    /** The body received into its place, as a view of it. */
    method ReceiveInto(cache: Buffer?, size: nat, stream: Stream) returns (ok: bool, ghost asked: seq<nat>)
      requires EnvSize(Stored()) + 8 + size < TWO_64 && NeverMore(stream)
      modifies this`body, cache
      ensures Total(asked) == size && ok == !Short(stream, asked)
      ensures ok ==> body.Valid() && body.Bytes() == Received(stream, 0, asked) && |body.Bytes()| == size
      ensures ok && cache != null ==>
        && body == View(cache.AsStore(), body.begin, |cache.bytes|) && |cache.bytes| == EnvSize(Stored()) + 8 + size
        && cache.bytes == EnvBytes(Stored()) + Int(size) + body.Bytes()
    {
      var buffer, begin;
      ghost var front;
      ok, buffer, begin, front, asked := ReceiveEntity(cache, size, stream);
      if ok {
        SetBody(buffer, begin, front, Received(stream, 0, asked));
        EncodeSize(Stored().(body := View(Flat([]), 0, 0)));
      }
    }

    method SetBody(buffer: Buffer, begin: nat, ghost front: bytes, ghost data: bytes)
      requires buffer.bytes == front + data && begin == |front|
      modifies this`body
      ensures body == View(buffer.AsStore(), begin, |buffer.bytes|) && body.Valid() && body.Bytes() == data
    {
      BodyOf(buffer.bytes, front, data);
      body := View(buffer.AsStore(), begin, |buffer.bytes|);
    }

    /** What the body gave, and, in a cache's buffer, the tail behind it. */
    method TakeParsed(cache: Buffer?, newFiles: seq<File>, newArgs: seq<Pair>, ghost env: bytes, ghost size: nat)
      requires body.Valid() && env == EnvBytes(Stored()) && |body.Bytes()| == size
      requires cache != null ==>
        && body == View(cache.AsStore(), body.begin, |cache.bytes|) && cache.bytes == env + Int(size) + body.Bytes()
        && |cache.bytes| + 16 + FilesSize(newFiles) + PairsSize(newArgs) < TWO_64
      modifies this`body, this`files, this`args, cache
      ensures files == newFiles && args == newArgs
      ensures body.Valid() && body.Bytes() == old(body.Bytes()) && body.begin == old(body.begin)
      ensures cache != null ==> body.store.bytes == cache.bytes == Encode(Stored())
    {
      files, args := newFiles, newArgs;
      if cache != null {
        AppendTail(cache, env, size);
      }
    }

    /** The body, from the stream to its place. */
    method ReceiveEntity(cache: Buffer?, size: nat, stream: Stream)
      returns (ok: bool, buffer: Buffer, begin: nat, ghost front: bytes, ghost asked: seq<nat>)
      requires EnvSize(Stored()) + 8 + size < TWO_64 && NeverMore(stream)
      modifies cache
      ensures if cache == null then fresh(buffer) && front == [] else buffer == cache && front == EnvBytes(Stored()) + Int(size)
      ensures Total(asked) == size && ok == !Short(stream, asked) && begin == |front|
      ensures ok ==> buffer.bytes == front + Received(stream, 0, asked) && |Received(stream, 0, asked)| == size
    {
      buffer, begin, front := OpenBody(cache, size);
      var n, chunks := ReceiveBody(buffer, begin, stream, front);
      asked := Lengths(chunks);
      ReadsDecide(stream, chunks);
      ok := n == size;
    }

    /** Where the body goes: behind the maps and its length in the cache's buffer, or a buffer of its own. */
    method OpenBody(cache: Buffer?, size: nat) returns (buffer: Buffer, begin: nat, ghost front: bytes)
      requires EnvSize(Stored()) + 8 + size < TWO_64
      modifies cache
      ensures if cache == null then fresh(buffer) && front == [] else buffer == cache && front == EnvBytes(Stored()) + Int(size)
      ensures begin == |front| && |buffer.bytes| == begin + size && buffer.bytes[..begin] == front
    {
      if cache == null {
        buffer := new Buffer(0);
        buffer.Resize(size);
        begin, front := 0, [];
      } else {
        buffer := cache;
        begin := SerializeEnv(cache, size + 8);
        begin := SerializeInt(cache, begin, size, EnvBytes(Stored()));
        front := EnvBytes(Stored()) + Int(size);
        EncodeSize(Stored().(body := View(Flat([]), 0, 0)));
      }
    }

    /** The last part of attach: the buffer grows by the files and the arguments behind the body in it. */
    method AppendTail(cache: Buffer, ghost env: bytes, ghost size: nat)
      requires body == View(cache.AsStore(), body.begin, |cache.bytes|) && body.Valid()
      requires |body.Bytes()| == size && env == EnvBytes(Stored())
      requires cache.bytes == env + Int(size) + body.Bytes()
      requires |cache.bytes| + 16 + FilesSize(files) + PairsSize(args) < TWO_64
      modifies this`body, cache
      ensures body.Valid() && body.Bytes() == old(body.Bytes()) && body.begin == old(body.begin)
      ensures body.store.bytes == cache.bytes == Encode(Stored())
    {
      ghost var entity, done := body.Bytes(), cache.bytes;
      var fileSize := SizeOfFiles(files);
      var argSize := SizeOfPairs(args);
      var end := body.end;
      cache.Resize(end + 16 + fileSize + argSize);
      assert cache.bytes[..end] == done;
      var pos := SerializeTail(cache, end, done);
      EncodeChain(env, Int(size), entity, FilesSection(files, body.begin), Section(args));
      assert cache.bytes[..end] == done;
      body := View(cache.AsStore(), body.begin, end);
      BodyOf(done, env + Int(size), entity);
      SliceOfSlice(cache.bytes, 0, end, body.begin, end);
    }

    /** Files and arguments, the last part of both writers. */
    method SerializeTail(buffer: Buffer, pos: nat, ghost done: bytes) returns (next: nat)
      requires Written(buffer.bytes, pos, done) && |buffer.bytes| < TWO_64
      requires pos + 8 + FilesSize(files) + 8 + PairsSize(args) == |buffer.bytes|
      modifies buffer
      ensures next == |buffer.bytes| == old(|buffer.bytes|)
      ensures buffer.bytes == done + FilesSection(files, body.begin) + Section(args)
    {
      next := SerializeFiles(buffer, pos, files, body.begin, done);
      next := SerializeSection(buffer, next, args, done + FilesSection(files, body.begin));
      assert buffer.bytes[..next] == buffer.bytes;
    }

    /** The fields are those that were read, or the reader's error is reported. */
    ghost predicate Became(r: Outcome, read: Result<Fields>)
      reads this
    {
      if read.Ok? then r == Done && Stored() == read.value else r == Failed(read.error)
    }

    /** restore: whatever the object held before is dropped. */
    method Restore(buffer: Buffer, headerLess: Less, less: Less) returns (r: Outcome)
      modifies this
      ensures Became(r, RequestFormat.Parse(buffer.AsStore(), headerLess, less))
    {
      args, vars, files, cookies, headers := [], [], [], [], [];
      ParseIntoCleared(Stored(), buffer.AsStore(), headerLess, less);
      r := Parse(buffer, headerLess, less);
    }

    /** parse: what the buffer holds is added to the request. */
    method Parse(buffer: Buffer, headerLess: Less, less: Less) returns (r: Outcome)
      modifies this
      ensures Became(r, ParseInto(old(Stored()), buffer.AsStore(), headerLess, less))
    {
      var h := ParsePairs(buffer, 0, AddSorted(headerLess), headers);
      if h.Err? { return Failed(h.error); }
      headers := h.value.0;
      var c := ParsePairs(buffer, h.value.1, AddSorted(less), cookies);
      if c.Err? { return Failed(c.error); }
      cookies := c.value.0;
      var v := ParsePairs(buffer, c.value.1, AddSorted(less), vars);
      if v.Err? { return Failed(v.error); }
      vars := v.value.0;
      r := ParseRest(buffer, v.value.1, less);
    }

    method ParseRest(buffer: Buffer, pos: nat, less: Less) returns (r: Outcome)
      modifies this
      ensures var head := ReadInt(buffer.bytes, pos);
        Became(r, RestInto(old(Stored()), buffer.AsStore(), less, head.1, SectionEnd(head)))
    {
      var size, begin := ParseInt(buffer, pos);
      var end := SectionEnd((size, begin));
      if end > |buffer.bytes| { return Failed(CannotParse); }
      body := View(buffer.AsStore(), begin, end);
      var f := ParseFiles(buffer, end, begin, less, files);
      if f.Err? { return Failed(f.error); }
      files := f.value.0;
      var a := ParsePairs(buffer, f.value.1, AddArg(), args);
      if a.Err? { return Failed(a.error); }
      args := a.value.0;
      r := Done;
    }
  }

  /** A request stored and restored into a fresh object; `begin` and `end` are the body's place in the buffer. */
  method StoreAndRestore(request: Request, buffer: Buffer, headerLess: Less, less: Less)
    returns (copy: Request, r: Outcome, ghost begin: nat, ghost end: nat)
    requires Storable(request.Stored(), headerLess, less)
    modifies buffer
    ensures fresh(copy) && r == Done && buffer.bytes == Encode(request.Stored())
    ensures copy.Stored() == Restored(request.Stored(), buffer.AsStore(), begin, end)
    ensures copy.body.Valid() && copy.body.Bytes() == request.body.Bytes()
    ensures AllRestored(request.Stored().args, copy.Stored().args)
  {
    request.Serialize(buffer);
    copy := new Request();
    ParseIntoCleared(copy.Stored(), buffer.AsStore(), headerLess, less);
    r := copy.Parse(buffer, headerLess, less);
    begin, end := ReadsBack(request.Stored(), buffer.AsStore(), headerLess, less);
    ghost var q := RequestRestored(request.Stored(), buffer.AsStore(), headerLess, less);
  }

  lemma ReadsBack(f: Fields, store: Store, headerLess: Less, less: Less) returns (begin: nat, end: nat)
    requires Storable(f, headerLess, less) && store.bytes == Encode(f) && (store.Windowed? ==> store.window > 0)
    ensures var q := Restored(f, store, begin, end);
      RequestFormat.Parse(store, headerLess, less) == Ok(q) && q.body.Valid() && q.body.Bytes() == f.body.Bytes()
  {
    begin, end := RoundTrip(f, store, headerLess, less);
  }

  lemma EncodeChain(e: bytes, n: bytes, b: bytes, f: bytes, a: bytes)
    ensures e + n + b + f + a == e + (n + (b + (f + a)))
  {
  }
}
