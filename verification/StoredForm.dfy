/** How the parts meet: views of a file through its window, and parsed forms that are stored. */
module StoredForm {
  import opened Bytes
  import opened DataBuffer
  import MMapFile
  import FileBuffer
  import Multipart
  import MultipartForm
  import Wire
  import RequestFormat

  // ----- a windowed store is a file buffer -----

  ghost predicate IsViewOf(v: View, file: FileBuffer.FileBuffer)
    reads file, file.file
  {
    file.Valid() && v.Valid() && v.store == Windowed(file.file.bytes, file.window)
  }

  /** The chunk at a position, taken through the mapping, is the one that iterating over the view delivers there. */
  method ChunkAt(file: FileBuffer.FileBuffer, v: View, pos: nat) returns (chunk: seq<byte>)
    requires IsViewOf(v, file) && v.begin <= pos < v.end
    modifies file.file
    ensures IsViewOf(v, file) && chunk == v.store.bytes[pos..v.ChunkEnd(pos)]
  {
    var r := file.file.AtSegment(pos);
    SegmentProgress(v.store, pos);
    var n := MMapFile.Min(r.value.1, v.end - pos);
    chunk := file.file.Load(r.value.0, n);
  }

  /** toString over a file: the bytes of the view, chunk by chunk through the mapping. */
  method Gather(file: FileBuffer.FileBuffer, v: View) returns (s: seq<byte>)
    requires IsViewOf(v, file)
    modifies file.file
    ensures IsViewOf(v, file) && s == v.Bytes()
  {
    s := [];
    var pos := v.begin;
    while pos < v.end
      invariant v.begin <= pos <= v.end && IsViewOf(v, file) && s == v.store.bytes[v.begin..pos]
    {
      var chunk := ChunkAt(file, v, pos);
      var next := v.ChunkEnd(pos);
      Adjacent(v.store.bytes, v.begin, pos, next);
      s := s + chunk;
      pos := next;
    }
  }

  lemma Adjacent(s: seq<byte>, a: nat, b: nat, c: nat)
    requires a <= b <= c <= |s|
    ensures s[a..b] + s[b..c] == s[a..c]
  {
  }

  // ----- a parsed form can be stored -----

  /** The request's list of files holds uploads of the form. */
  ghost predicate Lists(files: seq<RequestFormat.File>, form: Multipart.Form) {
    forall i :: 0 <= i < |files| ==> Listed(files[i], form)
  }

  ghost predicate Listed(f: RequestFormat.File, form: Multipart.Form) {
    f.name in form.files && form.files[f.name] == Multipart.Upload(f.remoteName, f.mime, Multipart.Span(f.begin, f.end))
  }

  /** The files found in a body fit: even the view (0, 0), wherever attach has put the body. */
  lemma ParsedFilesFit(body: View, boundary: seq<byte>, form: Multipart.Form, files: seq<RequestFormat.File>, to: nat)
    requires body.Valid() && boundary != [] && (body.begin == 0 || body.begin == to)
    requires Multipart.Parse(body.store.bytes, Multipart.Span(body.begin, body.end), boundary, Multipart.Form([], map[])) == Multipart.Ok(form)
    requires Lists(files, form)
    ensures RequestFormat.FilesFit(files, body, to)
  {
    var data, none := Multipart.Span(body.begin, body.end), Multipart.Form([], map[]);
    MultipartForm.FilesInside(body.store.bytes, data, boundary, none);
    forall i | 0 <= i < |files|
      ensures RequestFormat.FileFits(files[i], body, to)
    {
      assert Listed(files[i], form);
      assert MultipartForm.Inside(form.files[files[i].name].content, data);
    }
  }

  /** So every request whose files come from its body, in memory or in the cache's buffer, is stored and restored. */
  lemma ParsedFormIsRestored(r: RequestFormat.Fields, boundary: seq<byte>, form: Multipart.Form, store: Store,
                             headerLess: RequestFormat.Less, less: RequestFormat.Less) returns (begin: nat, end: nat)
    requires RequestFormat.Sound(r, headerLess, less) && store.bytes == RequestFormat.Encode(r)
    requires boundary != [] && (r.body.begin == 0 || r.body.begin == RequestFormat.EnvSize(r) + 8) && Lists(r.files, form)
    requires Multipart.Parse(r.body.store.bytes, Multipart.Span(r.body.begin, r.body.end), boundary, Multipart.Form([], map[])) == Multipart.Ok(form)
    ensures RequestFormat.Parse(store, headerLess, less) == Wire.Ok(RequestFormat.Restored(r, store, begin, end))
  {
    ParsedFilesFit(r.body, boundary, form, r.files, RequestFormat.EnvSize(r) + 8);
    begin, end := RequestFormat.RoundTrip(r, store, headerLess, less);
  }
}
