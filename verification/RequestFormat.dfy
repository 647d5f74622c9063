/** The serialised form of a request: what the writer produces and what the reader makes of any bytes. */
module RequestFormat {
  import opened Common
  import opened Bytes
  import opened Wire
  import UrlCodec
  import opened DataBuffer

  /** The ordering of a map's keys, exact or case-insensitive. */
  type Less = (bytes, bytes) -> bool

  ghost predicate StrictOrder(less: Less) {
    forall a, b :: less(a, b) ==> !less(b, a)
  }

  /** An uploaded file: its content is the range [begin, end) of the store that holds the body. */
  datatype File = File(name: bytes, remoteName: bytes, mime: bytes, begin: nat, end: nat)

  /** A request as far as it is stored; maps are listed in their iteration order. */
  datatype Fields = Fields(
    headers: seq<Pair>,
    cookies: seq<Pair>,
    vars: seq<Pair>,
    body: View,
    files: seq<File>,
    args: seq<Pair>)

  // ----- the layout -----

  /** Offsets are 64-bit differences and wrap. */
  function Offset(f: File, bodyBegin: nat): nat { (f.begin - bodyBegin) % TWO_64 }

  function FileBytes(f: File, bodyBegin: nat): bytes {
    Str(f.name) + (Str(f.remoteName) + (Str(f.mime) + (Int(Offset(f, bodyBegin)) + Int((f.end - f.begin) % TWO_64))))
  }

  function FilesBytes(fs: seq<File>, bodyBegin: nat): (r: bytes)
    ensures |r| == FilesSize(fs)
  {
    if fs == [] then [] else FileBytes(fs[0], bodyBegin) + FilesBytes(fs[1..], bodyBegin)
  }

  function FilesSize(fs: seq<File>): nat {
    if fs == [] then 0 else |fs[0].name| + |fs[0].remoteName| + |fs[0].mime| + 40 + FilesSize(fs[1..])
  }

  function FilesSection(fs: seq<File>, bodyBegin: nat): bytes { Int(FilesSize(fs)) + FilesBytes(fs, bodyBegin) }

  function EnvBytes(r: Fields): bytes {
    Section(r.headers) + (Section(r.cookies) + Section(r.vars))
  }

  function Encode(r: Fields): bytes
    requires r.body.Valid()
  {
    EnvBytes(r) + (Int(|r.body.Bytes()|) + (r.body.Bytes() + (FilesSection(r.files, r.body.begin) + Section(r.args))))
  }

  function EnvSize(r: Fields): nat { PairsSize(r.headers) + PairsSize(r.cookies) + PairsSize(r.vars) + 24 }

  lemma EncodeSize(r: Fields)
    requires r.body.Valid()
    ensures |EnvBytes(r)| == EnvSize(r)
    ensures |Encode(r)| == EnvSize(r) + 8 + |r.body.Bytes()| + 8 + FilesSize(r.files) + 8 + PairsSize(r.args)
  {
  }

  // ----- reading -----

  /** map::insert: in key order, and an equivalent key keeps its value. */
  function InsertPair(less: Less, q: seq<Pair>, p: Pair): seq<Pair> {
    if q == [] then [p]
    else if less(p.0, q[0].0) then [p] + q
    else if less(q[0].0, p.0) then [q[0]] + InsertPair(less, q[1..], p)
    else q
  }

  function InsertFile(less: Less, q: seq<File>, f: File): seq<File> {
    if q == [] then [f]
    else if less(f.name, q[0].name) then [f] + q
    else if less(q[0].name, f.name) then [q[0]] + InsertFile(less, q[1..], f)
    else q
  }

  /** An argument value with CR, LF or NUL is percent-encoded on reading. */
  function CleanArg(p: Pair): Pair {
    if 13 in p.1 || 10 in p.1 || 0 in p.1 then (p.0, UrlCodec.Encode(p.1)) else p
  }

  type Add = (seq<Pair>, Pair) -> seq<Pair>

  function ReadPairs(s: bytes, pos: nat, end: nat, add: Add, q: seq<Pair>): Result<(seq<Pair>, nat)>
    requires end <= |s|
    decreases end - pos
  {
    if pos >= end then Ok((q, pos))
    else
      match ReadPair(s, pos)
      case Err(e) => Err(e)
      case Ok(r) => ReadPairs(s, r.1, end, add, add(q, r.0))
  }

  /** A section: its size, checked against the buffer, and its entries. */
  function ReadSection(s: bytes, pos: nat, add: Add): Result<(seq<Pair>, nat)> {
    ReadWithin(s, ReadInt(s, pos).1, SectionEnd(ReadInt(s, pos)), add)
  }

  function SectionEnd(head: (int, nat)): nat { (head.0 + head.1) % TWO_64 }

  function ReadWithin(s: bytes, pos: nat, end: nat, add: Add): Result<(seq<Pair>, nat)> {
    if end > |s| then Err(CannotParse) else ReadPairs(s, pos, end, add, [])
  }

  function ReadNames(s: bytes, pos: nat): (r: Result<(File, nat)>)
    ensures r.Ok? ==> r.value.1 >= pos && (pos < |s| ==> r.value.1 > pos)
  {
    var (name, p1) :- ReadStr(s, pos);
    var (remote, p2) :- ReadStr(s, p1);
    var (mime, p3) :- ReadStr(s, p2);
    Ok((File(name, remote, mime, 0, 0), p3))
  }

  function ReadPlace(s: bytes, f: File, pos: nat, bodyBegin: nat): (r: Result<(File, nat)>)
    ensures r.Ok? ==> r.value.1 >= pos
  {
    var offset := ReadInt(s, pos);
    var length := ReadInt(s, offset.1);
    match PlaceFile(f, offset.0, length.0, bodyBegin, |s|)
    case Err(e) => Err(e)
    case Ok(g) => Ok((g, length.1))
  }

  function ReadFile(s: bytes, pos: nat, bodyBegin: nat): (r: Result<(File, nat)>)
    ensures r.Ok? && pos < |s| ==> r.value.1 > pos
  {
    match ReadNames(s, pos)
    case Err(e) => Err(e)
    case Ok(n) => ReadPlace(s, n.0, n.1, bodyBegin)
  }

  /** The view the stored offset and length describe; a view beyond the buffer is refused. */
  function PlaceFile(f: File, offset: int, length: int, bodyBegin: nat, size: nat): Result<File> {
    var begin, end := (offset + bodyBegin) % TWO_64, (offset + length + bodyBegin) % TWO_64;
    if end > size then Err(OutOfRange) else Ok(f.(begin := begin, end := end))
  }

  function ReadFiles(s: bytes, pos: nat, end: nat, bodyBegin: nat, less: Less, q: seq<File>): Result<(seq<File>, nat)>
    requires end <= |s|
    decreases end - pos
  {
    if pos >= end then Ok((q, pos))
    else
      match ReadFile(s, pos, bodyBegin)
      case Err(e) => Err(e)
      case Ok(r) => ReadFiles(s, r.1, end, bodyBegin, less, InsertFile(less, q, r.0))
  }

  function ReadFilesSection(s: bytes, pos: nat, bodyBegin: nat, less: Less): Result<(seq<File>, nat)> {
    ReadFilesWithin(s, ReadInt(s, pos).1, SectionEnd(ReadInt(s, pos)), bodyBegin, less)
  }

  function ReadFilesWithin(s: bytes, pos: nat, end: nat, bodyBegin: nat, less: Less): Result<(seq<File>, nat)> {
    if end > |s| then Err(CannotParse) else ReadFiles(s, pos, end, bodyBegin, less, [])
  }

  function AddSorted(less: Less): Add { (q: seq<Pair>, p: Pair) => InsertPair(less, q, p) }

  function AddArg(): Add { (q: seq<Pair>, p: Pair) => q + [CleanArg(p)] }

  /** The whole of parse; the body is a view of the buffer that was read. */
  function Parse(store: Store, headerLess: Less, less: Less): Result<Fields> {
    var s := store.bytes;
    var (headers, p1) :- ReadSection(s, 0, AddSorted(headerLess));
    var (cookies, p2) :- ReadSection(s, p1, AddSorted(less));
    var (vars, p3) :- ReadSection(s, p2, AddSorted(less));
    ParseRest(store, less, headers, cookies, vars, ReadInt(s, p3).1, SectionEnd(ReadInt(s, p3)))
  }

  function ParseRest(store: Store, less: Less, headers: seq<Pair>, cookies: seq<Pair>, vars: seq<Pair>, begin: nat, end: nat): Result<Fields> {
    var s := store.bytes;
    if end > |s| then Err(CannotParse)
    else
      var (files, p6) :- ReadFilesSection(s, end, begin, less);
      var (args, p7) :- ReadSection(s, p6, AddArg());
      Ok(Fields(headers, cookies, vars, View(store, begin, end), files, args))
  }

  lemma PairsStep(s: bytes, pos: nat, end: nat, add: Add, q: seq<Pair>)
    requires pos < end <= |s|
    ensures var r := ReadPair(s, pos);
      ReadPairs(s, pos, end, add, q) == if r.Err? then Err(r.error) else ReadPairs(s, r.value.1, end, add, add(q, r.value.0))
  {
  }

  lemma FilesStep(s: bytes, pos: nat, end: nat, bodyBegin: nat, less: Less, q: seq<File>)
    requires pos < end <= |s|
    ensures var r := ReadFile(s, pos, bodyBegin);
      ReadFiles(s, pos, end, bodyBegin, less, q) ==
      if r.Err? then Err(r.error) else ReadFiles(s, r.value.1, end, bodyBegin, less, InsertFile(less, q, r.value.0))
  {
  }

  lemma RestUnfolds(store: Store, less: Less, headers: seq<Pair>, cookies: seq<Pair>, vars: seq<Pair>, begin: nat, end: nat)
    ensures var s := store.bytes;
      var files := ReadFilesSection(s, end, begin, less);
      var rest := ParseRest(store, less, headers, cookies, vars, begin, end);
      if end > |s| then rest == Err(CannotParse)
      else if files.Err? then rest == Err(files.error)
      else
        var args := ReadSection(s, files.value.1, AddArg());
        rest == if args.Err? then Err(args.error)
                else Ok(Fields(headers, cookies, vars, View(store, begin, end), files.value.0, args.value.0))
  {
  }

  // ----- reading back what was written -----

  function AddAll(add: Add, q: seq<Pair>, ps: seq<Pair>): seq<Pair>
    decreases |ps|
  {
    if ps == [] then q else AddAll(add, add(q, ps[0]), ps[1..])
  }

  ghost predicate Ordered(less: Less, q: seq<Pair>) {
    forall i, j :: 0 <= i < j < |q| ==> less(q[i].0, q[j].0)
  }

  ghost predicate OrderedFiles(less: Less, q: seq<File>) {
    forall i, j :: 0 <= i < j < |q| ==> less(q[i].name, q[j].name)
  }

  lemma {:induction false} InsertLast(less: Less, q: seq<Pair>, p: Pair)
    requires StrictOrder(less) && forall i :: 0 <= i < |q| ==> less(q[i].0, p.0)
    ensures InsertPair(less, q, p) == q + [p]
  {
    if q != [] {
      assert less(q[0].0, p.0);
      InsertLast(less, q[1..], p);
    }
  }

  lemma {:induction false} InsertFileLast(less: Less, q: seq<File>, f: File)
    requires StrictOrder(less) && forall i :: 0 <= i < |q| ==> less(q[i].name, f.name)
    ensures InsertFile(less, q, f) == q + [f]
  {
    if q != [] {
      assert less(q[0].name, f.name);
      InsertFileLast(less, q[1..], f);
    }
  }

  /** A map inserted in its own order is the map. */
  lemma {:induction false} AddSortedAll(less: Less, q: seq<Pair>, ps: seq<Pair>)
    requires StrictOrder(less) && Ordered(less, q + ps)
    ensures AddAll(AddSorted(less), q, ps) == q + ps
    decreases |ps|
  {
    if ps == [] {
      assert q + ps == q;
    } else {
      forall i | 0 <= i < |q|
        ensures less(q[i].0, ps[0].0)
      {
        assert (q + ps)[i] == q[i] && (q + ps)[|q|] == ps[0];
      }
      InsertLast(less, q, ps[0]);
      assert q + [ps[0]] + ps[1..] == q + ps;
      AddSortedAll(less, q + [ps[0]], ps[1..]);
    }
  }

  function CleanArgs(ps: seq<Pair>): seq<Pair> {
    if ps == [] then [] else [CleanArg(ps[0])] + CleanArgs(ps[1..])
  }

  lemma {:induction false} AddArgAll(q: seq<Pair>, ps: seq<Pair>)
    ensures AddAll(AddArg(), q, ps) == q + CleanArgs(ps)
    decreases |ps|
  {
    if ps == [] {
      assert q + CleanArgs(ps) == q;
    } else {
      AddArgAll(q + [CleanArg(ps[0])], ps[1..]);
      Assoc(q, [CleanArg(ps[0])], CleanArgs(ps[1..]));
    }
  }

  lemma {:induction false} ReadPairsAt(s: bytes, pos: nat, end: nat, ps: seq<Pair>, add: Add, q: seq<Pair>)
    requires Has(s, pos, PairsBytes(ps)) && |s| <= MAX_STRING && end == pos + PairsSize(ps)
    ensures end <= |s| && ReadPairs(s, pos, end, add, q) == Ok((AddAll(add, q, ps), end))
    decreases |ps|
  {
    if ps != [] {
      PairThen(s, pos, ps[0], PairsBytes(ps[1..]));
      ReadPairsAt(s, ReadPair(s, pos).value.1, end, ps[1..], add, add(q, ps[0]));
    }
  }

  lemma ReadWithinAt(s: bytes, p: nat, end: nat, ps: seq<Pair>, add: Add)
    requires Has(s, p, PairsBytes(ps)) && |s| <= MAX_STRING && end == p + PairsSize(ps)
    ensures ReadWithin(s, p, end, add) == Ok((AddAll(add, [], ps), end))
  {
    ReadPairsAt(s, p, end, ps, add, []);
  }

  lemma NoWrap(x: nat)
    requires x < TWO_64
    ensures x % TWO_64 == x
  {
  }

  /** Data with its size in front: where it starts and what follows it. */
  lemma SizedParts(s: bytes, pos: nat, data: bytes, rest: bytes)
    requires Has(s, pos, Int(|data|) + data + rest) && |s| <= MAX_STRING
    ensures var head := ReadInt(s, pos);
      && Has(s, head.1, data) && Has(s, SectionEnd(head), rest)
      && SectionEnd(head) == head.1 + |data| && head.1 == pos + 8
  {
    Assoc(Int(|data|), data, rest);
    IntThen(s, pos, |data|, data + rest);
    var p := ReadInt(s, pos).1;
    HasParts(s, p, data, rest);
    NoWrap(|data| + p);
    assert SectionEnd(ReadInt(s, pos)) == p + |data|;
  }

  /** A section that stands at a position is read whole, up to what follows it. */
  lemma ReadSectionAt(s: bytes, pos: nat, ps: seq<Pair>, add: Add, rest: bytes) returns (end: nat)
    requires Has(s, pos, Section(ps) + rest) && |s| <= MAX_STRING
    ensures ReadSection(s, pos, add) == Ok((AddAll(add, [], ps), end))
    ensures Has(s, end, rest) && end == pos + 8 + PairsSize(ps)
  {
    SizedParts(s, pos, PairsBytes(ps), rest);
    var head := ReadInt(s, pos);
    end := SectionEnd(head);
    ReadWithinAt(s, head.1, end, ps, add);
  }

  // ----- files -----

  /** The same file with its content found in another buffer. */
  function Moved(f: File, from: nat, to: nat): File {
    f.(begin := (f.begin - from + to) % TWO_64, end := (f.end - from + to) % TWO_64)
  }

  function MovedAll(fs: seq<File>, from: nat, to: nat): seq<File> {
    if fs == [] then [] else [Moved(fs[0], from, to)] + MovedAll(fs[1..], from, to)
  }

  /** A view inside the body, or an empty one that does not fall off the front of the new buffer. */
  ghost predicate FileFits(f: File, body: View, to: nat) {
    || body.begin <= f.begin <= f.end <= body.end
    || (f.begin == f.end < body.begin <= f.begin + to)
  }

  /** A wrapped difference taken back by a sum that does not wrap. */
  lemma WrapBack(d: int, b: int)
    requires 0 <= d + b < TWO_64
    ensures (d % TWO_64 + b) % TWO_64 == d + b
  {
    var q := d / TWO_64;
    assert d % TWO_64 + b == d + b + (-q) * TWO_64;
    AddMultiple(d + b, -q);
  }

  lemma AddMultiple(x: int, q: int)
    requires 0 <= x < TWO_64
    ensures (x + q * TWO_64) % TWO_64 == x
  {
  }

  lemma FileMoves(f: File, body: View, to: nat, size: nat)
    requires FileFits(f, body, to) && to + (body.end - body.begin) <= size < TWO_64 && body.Valid()
    ensures var m := Moved(f, body.begin, to);
      && m.begin == f.begin - body.begin + to && m.end == f.end - body.begin + to
      && PlaceFile(f.(begin := 0, end := 0), Offset(f, body.begin), (f.end - f.begin) % TWO_64, to, size) == Ok(m)
  {
    var d, n := f.begin - body.begin, f.end - f.begin;
    WrapBack(d, to);
    WrapBack(d, n + to);
    NoWrap(n);
    NoWrap(d + to);
    NoWrap(d + n + to);
  }

  lemma ReadNamesAt(s: bytes, pos: nat, f: File, rest: bytes)
    requires Has(s, pos, Str(f.name) + (Str(f.remoteName) + (Str(f.mime) + rest))) && |s| <= MAX_STRING
    ensures var r := ReadNames(s, pos);
      && r.Ok? && r.value.0 == f.(begin := 0, end := 0)
      && r.value.1 == pos + 24 + |f.name| + |f.remoteName| + |f.mime| && Has(s, r.value.1, rest)
  {
    StrThen(s, pos, f.name, Str(f.remoteName) + (Str(f.mime) + rest));
    var p1 := ReadStr(s, pos).value.1;
    StrThen(s, p1, f.remoteName, Str(f.mime) + rest);
    StrThen(s, ReadStr(s, p1).value.1, f.mime, rest);
  }

  lemma ReadPlaceAt(s: bytes, f: File, g: File, pos: nat, off: nat, len: nat, to: nat, rest: bytes)
    requires Has(s, pos, Int(off) + (Int(len) + rest)) && off < TWO_64 && len < TWO_64
    requires PlaceFile(f, off, len, to, |s|) == Ok(g)
    ensures var r := ReadPlace(s, f, pos, to); r.Ok? && r.value.0 == g && r.value.1 == pos + 16 && Has(s, r.value.1, rest)
  {
    IntThen(s, pos, off, Int(len) + rest);
    IntThen(s, ReadInt(s, pos).1, len, rest);
  }

  lemma ReadNamesPlace(s: bytes, pos: nat, f: File, g: File, off: nat, len: nat, to: nat, rest: bytes)
    requires Has(s, pos, Str(f.name) + (Str(f.remoteName) + (Str(f.mime) + (Int(off) + (Int(len) + rest)))))
    requires |s| <= MAX_STRING && off < TWO_64 && len < TWO_64
    requires PlaceFile(f.(begin := 0, end := 0), off, len, to, |s|) == Ok(g)
    ensures var r := ReadFile(s, pos, to);
      && r.Ok? && r.value.0 == g && r.value.1 == pos + 40 + |f.name| + |f.remoteName| + |f.mime| && Has(s, r.value.1, rest)
  {
    ReadNamesAt(s, pos, f, Int(off) + (Int(len) + rest));
    var n := ReadNames(s, pos).value;
    ReadPlaceAt(s, n.0, g, n.1, off, len, to, rest);
  }

  lemma ReadFileAt(s: bytes, pos: nat, f: File, body: View, to: nat, rest: bytes)
    requires Has(s, pos, FileBytes(f, body.begin) + rest) && |s| <= MAX_STRING && body.Valid()
    requires FileFits(f, body, to) && to + (body.end - body.begin) <= |s|
    ensures var r := ReadFile(s, pos, to);
      && r.Ok? && r.value.0 == Moved(f, body.begin, to) && r.value.1 == pos + |FileBytes(f, body.begin)|
      && Has(s, r.value.1, rest)
  {
    var off, len := Offset(f, body.begin), (f.end - f.begin) % TWO_64;
    FileParts(f.name, f.remoteName, f.mime, Int(off), Int(len), rest);
    FileMoves(f, body, to, |s|);
    ReadNamesPlace(s, pos, f, Moved(f, body.begin, to), off, len, to, rest);
  }

  lemma FileParts(n: bytes, r: bytes, m: bytes, o: bytes, l: bytes, rest: bytes)
    ensures (Str(n) + (Str(r) + (Str(m) + (o + l)))) + rest == Str(n) + (Str(r) + (Str(m) + (o + (l + rest))))
  {
    Regroup(Str(n), Str(r), Str(m), o, l, rest);
  }

  lemma Regroup(n: bytes, r: bytes, m: bytes, o: bytes, l: bytes, rest: bytes)
    ensures (n + (r + (m + (o + l)))) + rest == n + (r + (m + (o + (l + rest))))
  {
  }

  ghost predicate FilesFit(fs: seq<File>, body: View, to: nat) {
    forall i :: 0 <= i < |fs| ==> FileFits(fs[i], body, to)
  }

  lemma {:induction false} ReadFilesAt(s: bytes, pos: nat, end: nat, fs: seq<File>, body: View, to: nat, less: Less, q: seq<File>)
    requires Has(s, pos, FilesBytes(fs, body.begin)) && |s| <= MAX_STRING && end == pos + FilesSize(fs)
    requires body.Valid() && FilesFit(fs, body, to) && to + (body.end - body.begin) <= |s|
    requires StrictOrder(less) && OrderedFiles(less, q + fs)
    ensures end <= |s|
    ensures ReadFiles(s, pos, end, to, less, q) == Ok((q + MovedAll(fs, body.begin, to), end))
    decreases |fs|
  {
    if fs == [] {
      assert q + MovedAll(fs, body.begin, to) == q;
    } else {
      var m := Moved(fs[0], body.begin, to);
      ReadFileAt(s, pos, fs[0], body, to, FilesBytes(fs[1..], body.begin));
      FileInOrder(less, q, fs, m);
      ReadFilesAt(s, ReadFile(s, pos, to).value.1, end, fs[1..], body, to, less, q + [m]);
      Assoc(q, [m], MovedAll(fs[1..], body.begin, to));
    }
  }

  lemma FileInOrder(less: Less, q: seq<File>, fs: seq<File>, m: File)
    requires StrictOrder(less) && fs != [] && OrderedFiles(less, q + fs) && m.name == fs[0].name
    ensures InsertFile(less, q, m) == q + [m]
    ensures OrderedFiles(less, q + [m] + fs[1..])
  {
    forall i | 0 <= i < |q|
      ensures less(q[i].name, m.name)
    {
      assert (q + fs)[i] == q[i] && (q + fs)[|q|] == fs[0];
    }
    InsertFileLast(less, q, m);
    var a, b := q + fs, q + [m] + fs[1..];
    assert forall i :: 0 <= i < |b| ==> b[i].name == a[i].name;
  }

  lemma ReadFilesSectionAt(s: bytes, pos: nat, fs: seq<File>, body: View, to: nat, less: Less, rest: bytes) returns (end: nat)
    requires Has(s, pos, FilesSection(fs, body.begin) + rest) && |s| <= MAX_STRING
    requires body.Valid() && FilesFit(fs, body, to) && to + (body.end - body.begin) <= |s|
    requires StrictOrder(less) && OrderedFiles(less, fs)
    ensures ReadFilesSection(s, pos, to, less) == Ok((MovedAll(fs, body.begin, to), end)) && Has(s, end, rest)
  {
    SizedParts(s, pos, FilesBytes(fs, body.begin), rest);
    var head := ReadInt(s, pos);
    end := SectionEnd(head);
    assert [] + fs == fs;
    ReadFilesAt(s, head.1, end, fs, body, to, less, []);
    assert [] + MovedAll(fs, body.begin, to) == MovedAll(fs, body.begin, to);
  }

  // ----- reading a name twice -----

  /** What a map asks of its ordering: names that are neither before nor behind each other count as one. */
  ghost predicate WeakOrder(less: Less) {
    && StrictOrder(less)
    && forall a, b, c :: less(a, b) && !less(c, b) ==> less(a, c)
  }

  predicate SameName(less: Less, a: bytes, b: bytes) { !less(a, b) && !less(b, a) }

  /** Names in order, and `k` behind the first `i` of them and not behind the next. */
  ghost predicate PlaceOf(less: Less, names: seq<bytes>, k: bytes, i: nat) {
    && i <= |names|
    && (forall j :: 0 <= j < i ==> less(names[j], k))
    && (i < |names| ==> !less(names[i], k))
  }

  ghost predicate InOrder(less: Less, names: seq<bytes>) {
    forall i, j :: 0 <= i < j < |names| ==> less(names[i], names[j])
  }

  /** At its place a name stands in order, or there is one of the same name and there is no other. */
  lemma PlaceIsRight(less: Less, names: seq<bytes>, k: bytes, i: nat)
    requires WeakOrder(less) && InOrder(less, names) && PlaceOf(less, names, k, i)
    ensures (exists j :: 0 <= j < |names| && SameName(less, names[j], k)) <==> i < |names| && !less(k, names[i])
    ensures i == |names| || less(k, names[i]) ==> InOrder(less, names[..i] + [k] + names[i..])
  {
    if i < |names| && !less(k, names[i]) {
      assert SameName(less, names[i], k);
    }
    if i == |names| || less(k, names[i]) {
      PlacedInOrder(less, names, k, i);
    }
  }

  lemma PlacedInOrder(less: Less, names: seq<bytes>, k: bytes, i: nat)
    requires WeakOrder(less) && InOrder(less, names) && PlaceOf(less, names, k, i) && (i == |names| || less(k, names[i]))
    ensures InOrder(less, names[..i] + [k] + names[i..])
  {
    var r := names[..i] + [k] + names[i..];
    forall a, b | 0 <= a < b < |r|
      ensures less(r[a], r[b])
    {
      if a == i && b > i + 1 {
        assert less(names[i], names[b - 1]) && !less(names[b - 1], names[i]);
      }
    }
  }

  function Names(q: seq<Pair>): seq<bytes> { seq(|q|, i requires 0 <= i < |q| => q[i].0) }

  function FileNames(q: seq<File>): seq<bytes> { seq(|q|, i requires 0 <= i < |q| => q[i].name) }

  lemma {:induction false} InsertPlaces(less: Less, q: seq<Pair>, p: Pair) returns (i: nat)
    requires StrictOrder(less)
    ensures PlaceOf(less, Names(q), p.0, i)
    ensures InsertPair(less, q, p) == if i < |q| && !less(p.0, q[i].0) then q else q[..i] + [p] + q[i..]
  {
    i := 0;
    if q != [] && less(q[0].0, p.0) {
      var n := InsertPlaces(less, q[1..], p);
      BehindFirst(q, p, n);
      i := n + 1;
      assert forall j :: 0 < j < |q| ==> Names(q)[j] == Names(q[1..])[j - 1];
    }
  }

  lemma {:induction false} InsertFilePlaces(less: Less, q: seq<File>, f: File) returns (i: nat)
    requires StrictOrder(less)
    ensures PlaceOf(less, FileNames(q), f.name, i)
    ensures InsertFile(less, q, f) == if i < |q| && !less(f.name, q[i].name) then q else q[..i] + [f] + q[i..]
  {
    i := 0;
    if q != [] && less(q[0].name, f.name) {
      var n := InsertFilePlaces(less, q[1..], f);
      BehindFirst(q, f, n);
      i := n + 1;
      assert forall j :: 0 < j < |q| ==> FileNames(q)[j] == FileNames(q[1..])[j - 1];
    }
  }

  /** An entry is put in its place in the order, and dropped if there is one of the same name. */
  lemma InsertExactly(less: Less, q: seq<Pair>, p: Pair) returns (i: nat)
    requires WeakOrder(less) && InOrder(less, Names(q))
    ensures i <= |q| && InsertPair(less, q, p) ==
      if exists j :: 0 <= j < |q| && SameName(less, Names(q)[j], p.0) then q else q[..i] + [p] + q[i..]
    ensures InOrder(less, Names(InsertPair(less, q, p)))
  {
    i := InsertPlaces(less, q, p);
    PlaceIsRight(less, Names(q), p.0, i);
    assert Names(q[..i] + [p] + q[i..]) == Names(q)[..i] + [p.0] + Names(q)[i..];
  }

  lemma InsertFileExactly(less: Less, q: seq<File>, f: File) returns (i: nat)
    requires WeakOrder(less) && InOrder(less, FileNames(q))
    ensures i <= |q| && InsertFile(less, q, f) ==
      if exists j :: 0 <= j < |q| && SameName(less, FileNames(q)[j], f.name) then q else q[..i] + [f] + q[i..]
    ensures InOrder(less, FileNames(InsertFile(less, q, f)))
  {
    i := InsertFilePlaces(less, q, f);
    PlaceIsRight(less, FileNames(q), f.name, i);
    assert FileNames(q[..i] + [f] + q[i..]) == FileNames(q)[..i] + [f.name] + FileNames(q)[i..];
  }

  // ----- the round trip -----

  /** Maps in key order, and a size that a string can have. */
  ghost predicate Sound(r: Fields, headerLess: Less, less: Less) {
    && r.body.Valid() && StrictOrder(headerLess) && StrictOrder(less)
    && Ordered(headerLess, r.headers) && Ordered(less, r.cookies) && Ordered(less, r.vars)
    && OrderedFiles(less, r.files) && |Encode(r)| <= MAX_STRING
  }

  /** What can be stored: in addition the new buffer can hold the file views. */
  ghost predicate Storable(r: Fields, headerLess: Less, less: Less) {
    Sound(r, headerLess, less) && FilesFit(r.files, r.body, EnvSize(r) + 8)
  }

  /** The stored request as it is read back from its own serialised form. */
  function Restored(r: Fields, store: Store, begin: nat, end: nat): Fields {
    Fields(r.headers, r.cookies, r.vars, View(store, begin, end), MovedAll(r.files, r.body.begin, begin), CleanArgs(r.args))
  }

  lemma EnvRead(r: Fields, s: bytes, headerLess: Less, less: Less, rest: bytes)
    requires Sound(r, headerLess, less) && |s| <= MAX_STRING && Has(s, 0, EnvBytes(r) + rest)
    ensures var h := ReadSection(s, 0, AddSorted(headerLess));
      && h.Ok? && h.value.0 == r.headers
      && var c := ReadSection(s, h.value.1, AddSorted(less));
      && c.Ok? && c.value.0 == r.cookies
      && var v := ReadSection(s, c.value.1, AddSorted(less));
      v.Ok? && v.value.0 == r.vars && v.value.1 == EnvSize(r) && Has(s, v.value.1, rest)
  {
    var a, b, c := Section(r.headers), Section(r.cookies), Section(r.vars);
    Regroup3(a, b, c, rest);
    var p1 := ReadSectionAt(s, 0, r.headers, AddSorted(headerLess), b + (c + rest));
    var p2 := ReadSectionAt(s, p1, r.cookies, AddSorted(less), c + rest);
    var p3 := ReadSectionAt(s, p2, r.vars, AddSorted(less), rest);
    AddSortedFresh(headerLess, r.headers);
    AddSortedFresh(less, r.cookies);
    AddSortedFresh(less, r.vars);
  }

  lemma AddSortedFresh(less: Less, ps: seq<Pair>)
    requires StrictOrder(less) && Ordered(less, ps)
    ensures AddAll(AddSorted(less), [], ps) == ps
  {
    assert [] + ps == ps;
    AddSortedAll(less, [], ps);
  }

  lemma RestRead(r: Fields, store: Store, less: Less, begin: nat, end: nat)
    requires r.body.Valid() && StrictOrder(less) && OrderedFiles(less, r.files) && FilesFit(r.files, r.body, begin)
    requires |store.bytes| <= MAX_STRING && begin + |r.body.Bytes()| == end <= |store.bytes|
    requires Has(store.bytes, end, FilesSection(r.files, r.body.begin) + Section(r.args))
    ensures ParseRest(store, less, r.headers, r.cookies, r.vars, begin, end) == Ok(Restored(r, store, begin, end))
  {
    var s := store.bytes;
    var p6 := ReadFilesSectionAt(s, end, r.files, r.body, begin, less, Section(r.args));
    assert Section(r.args) + [] == Section(r.args);
    var p7 := ReadSectionAt(s, p6, r.args, AddArg(), []);
    AddArgAll([], r.args);
    assert [] + CleanArgs(r.args) == CleanArgs(r.args);
  }

  lemma RestReadAs(parsed: Result<Fields>, r: Fields, store: Store, headerLess: Less, less: Less, begin: nat, end: nat)
    requires Storable(r, headerLess, less) && FilesFit(r.files, r.body, begin)
    requires |store.bytes| <= MAX_STRING && begin + |r.body.Bytes()| == end <= |store.bytes|
    requires Has(store.bytes, end, FilesSection(r.files, r.body.begin) + Section(r.args))
    requires parsed == ParseRest(store, less, r.headers, r.cookies, r.vars, begin, end)
    ensures parsed == Ok(Restored(r, store, begin, end))
  {
    RestRead(r, store, less, begin, end);
  }

  /** The body's place in the serialised form. */
  lemma BodyPlace(r: Fields, s: bytes, pos: nat)
    requires r.body.Valid() && |s| <= MAX_STRING
    requires Has(s, pos, Int(|r.body.Bytes()|) + (r.body.Bytes() + (FilesSection(r.files, r.body.begin) + Section(r.args))))
    ensures var head := ReadInt(s, pos);
      && head.1 == pos + 8 && head.1 + |r.body.Bytes()| == SectionEnd(head) <= |s|
      && Has(s, head.1, r.body.Bytes())
      && Has(s, SectionEnd(head), FilesSection(r.files, r.body.begin) + Section(r.args))
  {
    var body, tail := r.body.Bytes(), FilesSection(r.files, r.body.begin) + Section(r.args);
    Assoc(Int(|body|), body, tail);
    SizedParts(s, pos, body, tail);
  }

  /** From the three maps on: the place of the body decides the rest. */
  lemma ParseBy(r: Fields, store: Store, headerLess: Less, less: Less, begin: nat, end: nat)
    requires var s := store.bytes;
      var h := ReadSection(s, 0, AddSorted(headerLess));
      && h.Ok? && h.value.0 == r.headers
      && var c := ReadSection(s, h.value.1, AddSorted(less));
      && c.Ok? && c.value.0 == r.cookies
      && var v := ReadSection(s, c.value.1, AddSorted(less));
      && v.Ok? && v.value.0 == r.vars
      && begin == ReadInt(s, v.value.1).1 && end == SectionEnd(ReadInt(s, v.value.1))
    ensures Parse(store, headerLess, less) == ParseRest(store, less, r.headers, r.cookies, r.vars, begin, end)
  {
  }

  lemma ParseEncoded(r: Fields, store: Store, headerLess: Less, less: Less) returns (begin: nat, end: nat)
    requires Sound(r, headerLess, less) && store.bytes == Encode(r)
    ensures Parse(store, headerLess, less) == ParseRest(store, less, r.headers, r.cookies, r.vars, begin, end)
    ensures begin == EnvSize(r) + 8 && begin + |r.body.Bytes()| == end <= |store.bytes|
    ensures Has(store.bytes, begin, r.body.Bytes()) && |store.bytes| <= MAX_STRING
    ensures Has(store.bytes, end, FilesSection(r.files, r.body.begin) + Section(r.args))
  {
    var s := store.bytes;
    var rest := Int(|r.body.Bytes()|) + (r.body.Bytes() + (FilesSection(r.files, r.body.begin) + Section(r.args)));
    assert s[0..|s|] == s;
    EnvRead(r, s, headerLess, less, rest);
    var h := ReadSection(s, 0, AddSorted(headerLess));
    var c := ReadSection(s, h.value.1, AddSorted(less));
    var v := ReadSection(s, c.value.1, AddSorted(less));
    BodyPlace(r, s, v.value.1);
    begin, end := ReadInt(s, v.value.1).1, SectionEnd(ReadInt(s, v.value.1));
    ParseBy(r, store, headerLess, less, begin, end);
    assert begin == EnvSize(r) + 8;
  }

  /**
   Reading the serialised form into a fresh request restores headers, cookies, variables, body, files
   and arguments; an argument value with CR, LF or NUL comes back percent-encoded.
   */
  lemma RoundTrip(r: Fields, store: Store, headerLess: Less, less: Less) returns (begin: nat, end: nat)
    requires Storable(r, headerLess, less) && store.bytes == Encode(r)
    ensures Parse(store, headerLess, less) == Ok(Restored(r, store, begin, end))
    ensures begin == EnvSize(r) + 8 && begin + |r.body.Bytes()| == end <= |store.bytes|
    ensures Has(store.bytes, begin, r.body.Bytes())
  {
    begin, end := ParseEncoded(r, store, headerLess, less);
    RestReadAs(Parse(store, headerLess, less), r, store, headerLess, less, begin, end);
  }

  // ----- files come back with their content -----

  function Content(f: File, s: bytes): bytes {
    if f.begin <= f.end <= |s| then s[f.begin..f.end] else []
  }

  lemma {:induction false} MovedAllAt(fs: seq<File>, from: nat, to: nat, i: nat)
    requires i < |fs|
    ensures |MovedAll(fs, from, to)| == |fs| && MovedAll(fs, from, to)[i] == Moved(fs[i], from, to)
  {
    if i > 0 {
      MovedAllAt(fs[1..], from, to, i - 1);
    } else if |fs| > 1 {
      MovedAllAt(fs[1..], from, to, 0);
    }
  }

  lemma MovedContent(f: File, body: View, s: bytes, begin: nat)
    requires body.Valid() && FileFits(f, body, begin) && Has(s, begin, body.Bytes()) && |s| <= MAX_STRING
    ensures Content(Moved(f, body.begin, begin), s) == Content(f, body.store.bytes)
  {
    FileMoves(f, body, begin, |s|);
    if body.begin <= f.begin {
      var i, j := f.begin - body.begin, f.end - body.begin;
      SliceOfSlice(s, begin, begin + |body.Bytes()|, i, j);
      SliceOfSlice(body.store.bytes, body.begin, body.end, i, j);
    } else {
      assert s[f.begin - body.begin + begin..f.end - body.begin + begin] == [];
    }
  }

  /** Every file comes back with its name, remote name, type and content. */
  lemma FilesRestored(r: Fields, store: Store, headerLess: Less, less: Less, i: nat)
    requires Storable(r, headerLess, less) && store.bytes == Encode(r) && i < |r.files|
    ensures var p := Parse(store, headerLess, less);
      && p.Ok? && |p.value.files| == |r.files|
      && var f, g := r.files[i], p.value.files[i];
      && g.name == f.name && g.remoteName == f.remoteName && g.mime == f.mime
      && Content(g, store.bytes) == Content(f, r.body.store.bytes)
  {
    var begin, end := RoundTrip(r, store, headerLess, less);
    MovedAllAt(r.files, r.body.begin, begin, i);
    assert FileFits(r.files[i], r.body, begin);
    MovedContent(r.files[i], r.body, store.bytes, begin);
  }

  // ----- what becomes of the arguments -----

  /** Free of the bytes CR, LF and NUL. */
  predicate OneLine(v: bytes) { 13 !in v && 10 !in v && 0 !in v }

  /** A value comes back as it was or, if it is not on one line, as one line that urldecode turns into it. */
  ghost predicate ArgRestored(p: Pair, q: Pair) {
    && q.0 == p.0 && OneLine(q.1)
    && (if OneLine(p.1) then q.1 == p.1 else UrlCodec.Decode(q.1) == p.1)
  }

  ghost predicate AllRestored(ps: seq<Pair>, qs: seq<Pair>) {
    |ps| == |qs| && forall i :: 0 <= i < |ps| ==> ArgRestored(ps[i], qs[i])
  }

  lemma CleanArgRestores(p: Pair)
    ensures ArgRestored(p, CleanArg(p))
  {
    UrlCodec.EncodedIsClean(p.1);
    UrlCodec.DecodeEncode(p.1);
  }

  lemma {:induction false} CleanArgsAt(ps: seq<Pair>, i: nat)
    requires i < |ps|
    ensures |CleanArgs(ps)| == |ps| && CleanArgs(ps)[i] == CleanArg(ps[i])
  {
    if |ps| > 1 {
      CleanArgsAt(ps[1..], if i == 0 then 0 else i - 1);
    }
  }

  lemma CleanArgsRestore(ps: seq<Pair>)
    ensures AllRestored(ps, CleanArgs(ps))
  {
    assert ps == [] ==> CleanArgs(ps) == [];
    forall i | 0 <= i < |ps|
      ensures |CleanArgs(ps)| == |ps| && ArgRestored(ps[i], CleanArgs(ps)[i])
    {
      CleanArgsAt(ps, i);
      CleanArgRestores(ps[i]);
    }
  }

  /** Headers, cookies, variables and body are the same, and the arguments are restored. */
  ghost predicate SameRequest(r: Fields, q: Fields)
    requires r.body.Valid()
  {
    && q.headers == r.headers && q.cookies == r.cookies && q.vars == r.vars
    && q.body.Valid() && q.body.Bytes() == r.body.Bytes() && AllRestored(r.args, q.args)
  }

  lemma RestoredIsSame(r: Fields, store: Store, begin: nat, end: nat)
    requires r.body.Valid() && begin + |r.body.Bytes()| == end <= |store.bytes| && (store.Windowed? ==> store.window > 0)
    requires Has(store.bytes, begin, r.body.Bytes())
    ensures SameRequest(r, Restored(r, store, begin, end))
  {
    CleanArgsRestore(r.args);
  }

  /**
   The stored request comes back: its headers, cookies, variables and body as they were, and as many
   arguments as before under the same names in order, each value on one line and decodable to the original.
   */
  lemma RequestRestored(r: Fields, store: Store, headerLess: Less, less: Less) returns (q: Fields)
    requires Storable(r, headerLess, less) && store.bytes == Encode(r) && (store.Windowed? ==> store.window > 0)
    ensures Parse(store, headerLess, less) == Ok(q) && SameRequest(r, q)
  {
    var begin, end := RoundTrip(r, store, headerLess, less);
    q := Restored(r, store, begin, end);
    RestoredIsSame(r, store, begin, end);
  }

  // ----- files that cannot be stored -----

  /** A view inside the body, or an empty one in front of it, as a part without a blank line leaves it. */
  ghost predicate FileShaped(f: File, body: View) {
    || body.begin <= f.begin <= f.end <= body.end
    || f.begin == f.end < body.begin
  }

  ghost predicate FilesShaped(fs: seq<File>, body: View) {
    forall i :: 0 <= i < |fs| ==> FileShaped(fs[i], body)
  }

  lemma PlaceRefused(f: File, body: View, to: nat, size: nat)
    requires FileShaped(f, body) && !FileFits(f, body, to) && body.begin <= MAX_STRING && to <= size <= MAX_STRING
    ensures PlaceFile(f.(begin := 0, end := 0), Offset(f, body.begin), (f.end - f.begin) % TWO_64, to, size) == Err(OutOfRange)
  {
    var d := f.begin - body.begin;
    assert d % TWO_64 == d + TWO_64;
    NoWrap(d + TWO_64 + to);
  }

  lemma ReadFileRefused(s: bytes, pos: nat, f: File, body: View, to: nat, rest: bytes)
    requires Has(s, pos, FileBytes(f, body.begin) + rest) && |s| <= MAX_STRING && body.begin <= MAX_STRING && to <= |s|
    requires FileShaped(f, body) && !FileFits(f, body, to)
    ensures ReadFile(s, pos, to) == Err(OutOfRange)
  {
    var off, len := Offset(f, body.begin), (f.end - f.begin) % TWO_64;
    FileParts(f.name, f.remoteName, f.mime, Int(off), Int(len), rest);
    PlaceRefused(f, body, to, |s|);
    ReadNamesAt(s, pos, f, Int(off) + (Int(len) + rest));
    var n := ReadNames(s, pos).value;
    IntThen(s, n.1, off, Int(len) + rest);
    IntThen(s, ReadInt(s, n.1).1, len, rest);
  }

  lemma {:induction false} ReadFilesRefused(s: bytes, pos: nat, end: nat, fs: seq<File>, body: View, to: nat, less: Less, q: seq<File>)
    requires Has(s, pos, FilesBytes(fs, body.begin)) && |s| <= MAX_STRING && end == pos + FilesSize(fs)
    requires body.Valid() && body.begin <= MAX_STRING && to + (body.end - body.begin) <= |s|
    requires FilesShaped(fs, body) && !FilesFit(fs, body, to)
    ensures end <= |s| && ReadFiles(s, pos, end, to, less, q) == Err(OutOfRange)
    decreases |fs|
  {
    var rest := FilesBytes(fs[1..], body.begin);
    assert FileShaped(fs[0], body);
    if FileFits(fs[0], body, to) {
      var m := Moved(fs[0], body.begin, to);
      ReadFileAt(s, pos, fs[0], body, to, rest);
      FilesStep(s, pos, end, to, less, q);
      FitsRest(fs, body, to);
      ReadFilesRefused(s, ReadFile(s, pos, to).value.1, end, fs[1..], body, to, less, InsertFile(less, q, m));
    } else {
      ReadFileRefused(s, pos, fs[0], body, to, rest);
      FilesStep(s, pos, end, to, less, q);
    }
  }

  lemma FitsRest(fs: seq<File>, body: View, to: nat)
    requires fs != [] && FilesShaped(fs, body) && FileFits(fs[0], body, to) && !FilesFit(fs, body, to)
    ensures FilesShaped(fs[1..], body) && !FilesFit(fs[1..], body, to)
  {
    var i :| 0 <= i < |fs| && !FileFits(fs[i], body, to);
    assert fs[1..][i - 1] == fs[i];
  }

  lemma RestRefused(r: Fields, store: Store, less: Less, begin: nat, end: nat)
    requires r.body.Valid() && r.body.begin <= MAX_STRING && FilesShaped(r.files, r.body) && !FilesFit(r.files, r.body, begin)
    requires |store.bytes| <= MAX_STRING && begin + |r.body.Bytes()| == end <= |store.bytes|
    requires Has(store.bytes, end, FilesSection(r.files, r.body.begin) + Section(r.args))
    ensures ParseRest(store, less, r.headers, r.cookies, r.vars, begin, end) == Err(OutOfRange)
  {
    var s := store.bytes;
    SizedParts(s, end, FilesBytes(r.files, r.body.begin), Section(r.args));
    var head := ReadInt(s, end);
    ReadFilesRefused(s, head.1, SectionEnd(head), r.files, r.body, begin, less, []);
  }

  /** What was written for a request is read back exactly if the new buffer can hold the file views. */
  lemma ReadsBackExactly(r: Fields, store: Store, headerLess: Less, less: Less)
    requires Sound(r, headerLess, less) && store.bytes == Encode(r)
    requires FilesShaped(r.files, r.body) && r.body.begin <= MAX_STRING
    ensures Parse(store, headerLess, less).Ok? <==> FilesFit(r.files, r.body, EnvSize(r) + 8)
    ensures !FilesFit(r.files, r.body, EnvSize(r) + 8) ==> Parse(store, headerLess, less) == Err(OutOfRange)
  {
    if FilesFit(r.files, r.body, EnvSize(r) + 8) {
      var begin, end := RoundTrip(r, store, headerLess, less);
    } else {
      var begin, end := ParseEncoded(r, store, headerLess, less);
      RestRefused(r, store, less, begin, end);
    }
  }

  /** The request as attach leaves it for a cached POST: its body is part of the buffer that holds its stored form. */
  ghost predicate Attached(r: Fields) {
    r.body.Valid() && r.body.begin == EnvSize(r) + 8 && r.body.store.bytes == Encode(r)
  }

  /** A forward that shortens a variable of such a request makes a file with the view (0, 0) impossible to store. */
  lemma ForwardLosesEmptyFile(r: Fields, vars: seq<Pair>, i: nat, store: Store, headerLess: Less, less: Less)
    requires Attached(r) && FilesShaped(r.files, r.body) && r.body.begin <= MAX_STRING && PairsSize(vars) < PairsSize(r.vars)
    requires i < |r.files| && r.files[i].begin == r.files[i].end == 0
    requires Sound(r.(vars := vars), headerLess, less) && store.bytes == Encode(r.(vars := vars))
    ensures Parse(store, headerLess, less) == Err(OutOfRange)
  {
    var q := r.(vars := vars);
    assert !FileFits(q.files[i], q.body, EnvSize(q) + 8);
    ReadsBackExactly(q, store, headerLess, less);
  }

  const SCRIPT_NAME: bytes := [83, 67, 82, 73, 80, 84, 95, 78, 65, 77, 69]

  /** For every window there is such a request: stored and read back as attached, and refused after a forward to `/`. */
  lemma EmptyFileIsRefused(window: nat, headerLess: Less, less: Less) returns (r: Fields)
    requires window > 0 && StrictOrder(headerLess) && StrictOrder(less)
    ensures Attached(r) && r.body.store.Windowed? && r.body.store.window == window && r.vars == [(SCRIPT_NAME, [47, 97])]
    ensures Parse(r.body.store, headerLess, less).Ok?
    ensures Parse(Flat(Encode(r.(vars := [(SCRIPT_NAME, [47])]))), headerLess, less) == Err(OutOfRange)
  {
    var long, short: seq<Pair> := [(SCRIPT_NAME, [47, 97])], [(SCRIPT_NAME, [47])];
    OnePair((SCRIPT_NAME, [47, 97]));
    OnePair((SCRIPT_NAME, [47]));
    r := AttachedFile(window, long, headerLess, less);
    ReadsBackExactly(r, r.body.store, headerLess, less);
    var q := r.(vars := short);
    EncodeSize(q);
    ForwardLosesEmptyFile(r, short, 0, Flat(Encode(q)), headerLess, less);
  }

  lemma OnePair(p: Pair)
    ensures PairsSize([p]) == |p.0| + |p.1| + 16
  {
    var none: seq<Pair> := [p][1..];
    assert none == [];
  }

  /** A cached POST with an empty body and one file, of a part without a blank line. */
  lemma AttachedFile(window: nat, vars: seq<Pair>, headerLess: Less, less: Less) returns (r: Fields)
    requires window > 0 && StrictOrder(headerLess) && StrictOrder(less) && |vars| == 1 && PairsSize(vars) < 1000
    ensures Attached(r) && r.body.store.Windowed? && r.body.store.window == window && r.vars == vars && r.body.begin <= 1032
    ensures Sound(r, headerLess, less) && FilesShaped(r.files, r.body) && FilesFit(r.files, r.body, EnvSize(r) + 8)
    ensures r.files == [File([110], [102], [], 0, 0)] && r.headers == r.cookies == r.args == [] && |r.body.Bytes()| == 0
  {
    var f := File([110], [102], [], 0, 0);
    var begin := PairsSize(vars) + 32;
    var draft := Fields([], [], vars, View(Flat(ZeroBytes(begin)), begin, begin), [f], []);
    EncodeSize(draft);
    assert draft.files[1..] == [];
    assert FilesSize(draft.files) == 42;
    var bytes := Encode(draft);
    r := draft.(body := View(Windowed(bytes, window), begin, begin));
    assert r.body.Bytes() == draft.body.Bytes() == [];
    assert EnvBytes(r) == EnvBytes(draft);
    assert Encode(r) == bytes;
    assert FileShaped(f, r.body) && FileFits(f, r.body, EnvSize(r) + 8);
  }

  // ----- a second trip changes nothing -----

  lemma CleanArgTwice(p: Pair)
    ensures CleanArg(CleanArg(p)) == CleanArg(p)
  {
    UrlCodec.EncodedIsClean(p.1);
  }

  lemma {:induction false} CleanArgsTwice(ps: seq<Pair>)
    ensures CleanArgs(CleanArgs(ps)) == CleanArgs(ps)
  {
    if ps != [] {
      CleanArgTwice(ps[0]);
      CleanArgsTwice(ps[1..]);
      assert CleanArgs(ps)[1..] == CleanArgs(ps[1..]);
    }
  }

  lemma RestoredFile(r: Fields, i: nat, begin: nat, end: nat, store: Store)
    requires r.body.Valid() && i < |r.files| && FileFits(r.files[i], r.body, begin)
    requires begin + |r.body.Bytes()| == end <= |store.bytes| <= MAX_STRING
    ensures |MovedAll(r.files, r.body.begin, begin)| == |r.files|
    ensures var g := MovedAll(r.files, r.body.begin, begin)[i];
      && g.name == r.files[i].name && g.end <= MAX_STRING && g.begin <= g.end
      && FileFits(g, View(store, begin, end), begin)
  {
    MovedAllAt(r.files, r.body.begin, begin, i);
    FileMoves(r.files[i], r.body, begin, |store.bytes|);
  }

  lemma {:induction false} MovedNowhere(fs: seq<File>, at: nat)
    requires forall i :: 0 <= i < |fs| ==> fs[i].begin <= fs[i].end <= MAX_STRING
    ensures MovedAll(fs, at, at) == fs
  {
    if fs != [] {
      assert fs[0].begin <= fs[0].end <= MAX_STRING;
      MovedNowhere(fs[1..], at);
      NoWrap(fs[0].begin);
      NoWrap(fs[0].end);
    }
  }

  lemma RestoredStorable(r: Fields, store: Store, headerLess: Less, less: Less, begin: nat, end: nat)
    requires Storable(r, headerLess, less) && begin == EnvSize(r) + 8
    requires begin + |r.body.Bytes()| == end <= |store.bytes| <= MAX_STRING && (store.Windowed? ==> store.window > 0)
    requires var q := Restored(r, store, begin, end); q.body.Valid() ==> |Encode(q)| <= MAX_STRING
    ensures Storable(Restored(r, store, begin, end), headerLess, less)
    ensures MovedAll(Restored(r, store, begin, end).files, begin, begin) == Restored(r, store, begin, end).files
  {
    var q := Restored(r, store, begin, end);
    forall i | 0 <= i < |q.files|
      ensures |q.files| == |r.files| && q.files[i].name == r.files[i].name
      ensures q.files[i].begin <= q.files[i].end <= MAX_STRING && FileFits(q.files[i], q.body, begin)
    {
      MovedCount(r.files, r.body.begin, begin);
      assert FileFits(r.files[i], r.body, begin);
      RestoredFile(r, i, begin, end, store);
    }
    MovedCount(r.files, r.body.begin, begin);
    MovedNowhere(q.files, begin);
    assert EnvSize(q) == EnvSize(r);
    assert FilesFit(q.files, q.body, EnvSize(q) + 8);
  }

  lemma {:induction false} MovedCount(fs: seq<File>, from: nat, to: nat)
    ensures |MovedAll(fs, from, to)| == |fs|
  {
    if fs != [] {
      MovedCount(fs[1..], from, to);
    }
  }

  /** Storing a restored request and reading it again gives the same request. */
  lemma SecondTrip(r: Fields, first: Store, second: Store, headerLess: Less, less: Less) returns (q: Fields)
    requires Storable(r, headerLess, less) && first.bytes == Encode(r) && (first.Windowed? ==> first.window > 0)
    ensures Parse(first, headerLess, less) == Ok(q) && q.body.Valid()
    ensures |Encode(q)| <= MAX_STRING && second.bytes == Encode(q) ==>
      Parse(second, headerLess, less) == Ok(q.(body := View(second, q.body.begin, q.body.end)))
  {
    var begin, end := RoundTrip(r, first, headerLess, less);
    q := Restored(r, first, begin, end);
    if |Encode(q)| <= MAX_STRING && second.bytes == Encode(q) {
      RestoredStorable(r, first, headerLess, less, begin, end);
      CleanArgsTwice(r.args);
      SameAgain(q, second, headerLess, less);
    }
  }

  lemma SameAgain(q: Fields, second: Store, headerLess: Less, less: Less)
    requires Storable(q, headerLess, less) && second.bytes == Encode(q)
    requires q.body.begin == EnvSize(q) + 8 && MovedAll(q.files, q.body.begin, q.body.begin) == q.files
    requires CleanArgs(q.args) == q.args
    ensures Parse(second, headerLess, less) == Ok(q.(body := View(second, q.body.begin, q.body.end)))
  {
    var begin, end := RoundTrip(q, second, headerLess, less);
    assert begin == q.body.begin && end == q.body.end;
    assert Restored(q, second, begin, end) == q.(body := View(second, q.body.begin, q.body.end));
  }
}
