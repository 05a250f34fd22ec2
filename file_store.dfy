/** Content-addressed naming of uploaded files: `_fileDigest` and the
    naming part of `_saveFile`. */
module FileStore {
  import opened JsValues
  import opened Foreign
  import opened NodePath

  /** A multipart upload: its form key, the client's file name, and the
      bytes of the temporary file the multipart parser wrote. */
  datatype Upload = Upload(fieldname: string, filename: string, bytes: Bytes)

  /** The copy `_saveFile` starts from an upload's temporary file to
      `uploadsDir/name`. Nothing waits for it to finish. */
  datatype Copy = Copy(name: string, bytes: Bytes)

  /** `${snakeCase(name)}-${checksum}${ext}`, with name and ext from
      path.parse of the client's file name; ext keeps its dot and case.
      When the naming functions produce plain segments, the stored name
      parses back into `snake-checksum` and the client's own extension,
      and the checksum of the bytes can be read back from it. */
  function FileDigest(lib: Library, f: Upload): (r: string)
    ensures PlainNaming(lib, f) ==>
              ParsePath(r) == PathParts(lib.snakeCase(ParsePath(f.filename).name) + "-" + lib.checksum(f.bytes),
                                        ParsePath(f.filename).ext)
    ensures PlainNaming(lib, f) ==> ChecksumOf(r) == lib.checksum(f.bytes)
    ensures PlainNaming(lib, f) ==> NoSlash(r) && r == ParsePath(r).name + ParsePath(r).ext
  {
    var parts := ParsePath(f.filename);
    var s, c := lib.snakeCase(parts.name), lib.checksum(f.bytes);
    if PlainSegment(s) && PlainSegment(c) then
      DigestParses(s, c, parts.ext);
      DigestChecksum(s, c, parts.ext);
      s + "-" + c + parts.ext
    else
      s + "-" + c + parts.ext
  }

  /** `_saveFile`: the copy holds the upload's bytes under the digest
      name, so the name carries the checksum of what is stored and the
      client's extension; the name is returned at once. */
  function SaveFile(lib: Library, f: Upload): (c: Copy)
    ensures c.name == FileDigest(lib, f) && c.bytes == f.bytes
    ensures PlainNaming(lib, f) ==> ChecksumOf(c.name) == lib.checksum(c.bytes)
    ensures PlainNaming(lib, f) ==> ParsePath(c.name).ext == ParsePath(f.filename).ext
  {
    Copy(FileDigest(lib, f), f.bytes)
  }

  /** Reads the checksum back out of a stored name: what follows the last
      '-' of the name part. */
  function ChecksumOf(stored: string): string {
    var name := ParsePath(stored).name;
    match LastIndexOf(name, '-')
    case None => ""
    case Some(k) => name[k + 1..]
  }

  /** The naming functions produce segments without '.', '/' or '-'. */
  predicate PlainNaming(lib: Library, f: Upload) {
    PlainSegment(lib.snakeCase(ParsePath(f.filename).name)) && PlainSegment(lib.checksum(f.bytes))
  }

  /** A digest name built from plain segments parses back into its
      `snake-checksum` name and its extension, unchanged. */
  lemma {:induction false} DigestParses(s: string, c: string, ext: string)
    requires PlainSegment(s) && PlainSegment(c) && IsExtension(ext)
    ensures NoSlash(s + "-" + c + ext)
    ensures ParsePath(s + "-" + c + ext) == PathParts(s + "-" + c, ext)
  {
    var name := s + "-" + c;
    assert name[|s|] == '-';
    assert NoSlash(name) && forall k :: 1 <= k < |name| ==> name[k] != '.' by {
      forall k | 0 <= k < |name| ensures name[k] != '/' && name[k] != '.' {
        if k < |s| { assert name[k] == s[k]; }
        else if k > |s| { assert name[k] == c[k - |s| - 1]; }
      }
    }
    assert (name + ext)[|s|] == '-';
    forall k | 0 <= k < |name + ext| ensures (name + ext)[k] != '/' {
      if k >= |name| { assert (name + ext)[k] == ext[k - |name|]; }
    }
    JoinThenParse(name, ext);
  }

  /** The last '-' of `s + "-" + c` is the one before c when c has none. */
  lemma {:induction false} LastDash(s: string, c: string)
    requires PlainSegment(c)
    ensures LastIndexOf(s + "-" + c, '-') == Some(|s|)
  {
    var name := s + "-" + c;
    assert name[|s|] == '-';
    assert forall m :: |s| < m < |name| ==> name[m] == c[m - |s| - 1];
  }

  /** The checksum segment is read back from a digest name. */
  lemma {:induction false} DigestChecksum(s: string, c: string, ext: string)
    requires PlainSegment(s) && PlainSegment(c) && IsExtension(ext)
    ensures ChecksumOf(s + "-" + c + ext) == c
  {
    var name := s + "-" + c;
    DigestParses(s, c, ext);
    LastDash(s, c);
    assert name[|s| + 1..] == c;
  }

  /** Byte-identical uploads share the digest component of their stored
      names, whatever their original names. */
  lemma {:induction false} SameContentSameChecksum(lib: Library, f: Upload, g: Upload)
    requires PlainNaming(lib, f) && PlainNaming(lib, g)
    requires f.bytes == g.bytes
    ensures ChecksumOf(FileDigest(lib, f)) == ChecksumOf(FileDigest(lib, g))
  {
  }
}
