/** The helpers of the Supabase client module: the extension table that names a
    file's category, and `uploadFile`, which stores a file under a generated
    name and returns its path and public URL. */
module Supabase {
  import opened Strings
  import opened Tables
  import opened Store

  /** `fileName.split('.').pop().toLowerCase()` */
  function Extension(name: string): (e: string)
    ensures '.' !in e
    ensures forall i :: 0 <= i < |e| ==> !IsUpper(e[i])
    ensures |e| <= |name|
  {
    var raw := AfterLast(name, '.');
    var e := ToLower(raw);
    assert forall i :: 0 <= i < |e| ==> e[i] != '.' by {
      forall i | 0 <= i < |e| ensures e[i] != '.' {
        assert raw[i] in raw;
      }
    }
    e
  }

  /** A name without a dot is its own extension, lower-cased. */
  lemma ExtensionWithoutDot(name: string)
    requires '.' !in name
    ensures Extension(name) == ToLower(name)
  {
    AfterLastNoSep(name, '.');
  }

  const ImageExtensions: seq<string> := ["jpg", "jpeg", "png", "gif", "webp"]
  const AudioExtensions: seq<string> := ["mp3", "wav", "ogg", "m4a"]

  /** `getFileType`: the category the extension table gives a file name. */
  function GetFileType(fileName: string): (k: Kind)
    ensures k == Image <==> Extension(fileName) in ImageExtensions
    ensures k == Audio <==> Extension(fileName) in AudioExtensions
    ensures k == Pdf <==> Extension(fileName) == "pdf"
    ensures k == Text <==> Extension(fileName) == "txt"
    ensures k == Other <==> Extension(fileName) !in ImageExtensions + AudioExtensions + ["pdf", "txt"]
  {
    var e := Extension(fileName);
    if e in ImageExtensions then Image
    else if e in AudioExtensions then Audio
    else if e == "pdf" then Pdf
    else if e == "txt" then Text
    else Other
  }

  /** The table lower-cases before looking up, so names that differ only in the
      case of their letters get the same category. */
  lemma GetFileTypeIgnoresCase(a: string, b: string)
    requires ToLower(a) == ToLower(b)
    ensures GetFileType(a) == GetFileType(b)
  {
    AfterLastToLower(a, '.');
    AfterLastToLower(b, '.');
    assert Extension(a) == AfterLast(ToLower(a), '.') == AfterLast(ToLower(b), '.') == Extension(b);
  }

  lemma GetFileTypeOfLowered(name: string)
    ensures GetFileType(ToLower(name)) == GetFileType(name)
  {
    ToLowerIdempotent(name);
    GetFileTypeIgnoresCase(ToLower(name), name);
  }

  /** The object path `uploadFile` writes: `token.ext`, under `folder/` when the
      folder is not empty, where `ext` is the original name's text after its
      last dot with its case kept. */
  function StoredPath(folder: string, token: string, name: string): (r: string)
    ensures |StoredName(token, name)| <= |r|
    ensures r[|r| - |StoredName(token, name)|..] == StoredName(token, name)
    ensures folder == "" ==> r == StoredName(token, name)
    ensures |r| == (if folder == "" then 0 else |folder| + 1) + |StoredName(token, name)|
  {
    (if folder == "" then "" else folder + "/") + StoredName(token, name)
  }

  /** The stored path keeps the text after the last dot of the original name,
      letter case included. */
  lemma StoredPathKeepsExtension(folder: string, token: string, name: string)
    ensures AfterLast(StoredPath(folder, token, name), '.') == AfterLast(name, '.')
  {
    var dir := if folder == "" then "" else folder + "/";
    var ext := AfterLast(name, '.');
    AfterLastOfJoin(dir + token, '.', ext);
    JoinAssoc(dir, token, '.', ext);
  }

  /** The generated object name: the random token and the original extension. */
  function StoredName(token: string, name: string): (r: string)
    ensures StartsWith(r, token + ".")
    ensures AfterLast(r, '.') == AfterLast(name, '.')
    ensures |r| == |token| + 1 + |AfterLast(name, '.')|
  {
    AfterLastOfJoin(token, '.', AfterLast(name, '.'));
    assert (token + ['.'] + AfterLast(name, '.'))[..|token| + 1] == token + ".";
    token + ['.'] + AfterLast(name, '.')
  }

  /** Every object `uploadFile` writes for a folder lies under that folder. */
  lemma StoredPathUnderFolder(folder: string, token: string, name: string)
    requires folder != ""
    ensures StartsWith(StoredPath(folder, token, name), folder + "/")
  {
    StartsWithConcat(folder + "/", StoredName(token, name));
  }

  /** The stored object keeps the category of the picked file's name. */
  lemma StoredPathKeepsFileType(folder: string, token: string, name: string)
    ensures GetFileType(StoredPath(folder, token, name)) == GetFileType(name)
  {
    StoredPathKeepsExtension(folder, token, name);
  }

  /** `getPublicUrl(path)`: the address under which the project serves a
      public bucket's object. It makes no request. */
  function PublicUrl(projectUrl: string, bucket: string, path: string): (u: string)
    ensures StartsWith(u, projectUrl)
  {
    StartsWithConcat(projectUrl, "/storage/v1/object/public/" + bucket + "/" + path);
    projectUrl + ("/storage/v1/object/public/" + bucket + "/" + path)
  }

  /** What `uploadFile` returns. */
  datatype Uploaded = Uploaded(filePath: string, publicUrl: string)

  /** `uploadFile(file, bucket, folder)`, with `token` the random name it
      draws and `ok` whether the storage service accepts the write. */
  method UploadFile(b: Backend, file: Option<FileObj>, bucket: string, folder: string, token: string, ok: bool)
    returns (r: Result<Uploaded>)
    modifies b`objects
    ensures file.None? ==> r == Err("No file provided") && b.objects == old(b.objects)
    ensures file.Some? ==>
              var path := StoredPath(folder, token, file.value.name);
              if ok && (bucket, path) !in old(b.objects) then
                && r == Ok(Uploaded(path, PublicUrl(b.projectUrl, bucket, path)))
                && b.objects == old(b.objects)[(bucket, path) := file.value]
              else
                && r == Err("Failed to upload file to storage")
                && b.objects == old(b.objects)
    ensures forall k :: k in b.objects && k !in old(b.objects) ==> file == Some(b.objects[k])
  {
    if file.None? {
      return Err("No file provided");
    }
    var filePath := StoredPath(folder, token, file.value.name);
    var stored := b.Upload(bucket, filePath, file.value, ok);
    if !stored {
      return Err("Failed to upload file to storage");
    }
    r := Ok(Uploaded(filePath, PublicUrl(b.projectUrl, bucket, filePath)));
  }
}
