/**
 * The files picked for the next message, before upload: a bounded list that selection and
 * drag-and-drop append to, one-by-one removal, clearing after submit, the kind of preview
 * each file gets, and the shortened file names shown under the previews.
 */
module AttachmentList {
  import opened Wrappers
  import opened Text

  /** The defaults of the `maxSize` (100 MB) and `maxFiles` values. */
  const DefaultMaxSize: int := 104857600
  const DefaultMaxFiles: int := 10

  /** A picked file: its name, its size in bytes and its MIME type. */
  datatype File = File(name: string, size: int, mimeType: string)

  /** The files of `incoming` within the size limit, in their order. */
  function Fitting(incoming: seq<File>, maxSize: int): (r: seq<File>)
    ensures |r| <= |incoming|
    ensures forall f :: f in r <==> f in incoming && f.size <= maxSize
  {
    if incoming == [] then []
    else (if incoming[0].size <= maxSize then [incoming[0]] else []) + Fitting(incoming[1..], maxSize)
  }

  /** How many more files the list takes. */
  function Room(held: nat, maxFiles: int): nat {
    if maxFiles > held then maxFiles - held else 0
  }

  /**
   * The loop of `filesSelected` and `drop`: a file over the size limit is skipped and the
   * loop goes on; a file within it is appended, unless the list is already full, which ends
   * the loop.
   */
  function Accepted(held: seq<File>, incoming: seq<File>, maxSize: int, maxFiles: int): seq<File>
    decreases |incoming|
  {
    if incoming == [] then held
    else if incoming[0].size > maxSize then Accepted(held, incoming[1..], maxSize, maxFiles)
    else if |held| >= maxFiles then held
    else Accepted(held + [incoming[0]], incoming[1..], maxSize, maxFiles)
  }

  /**
   * What the loop amounts to: the held files, then the incoming files within the size limit,
   * in their order, as many as there is room for.
   */
  lemma {:induction false} AcceptedTakesFitting(held: seq<File>, incoming: seq<File>, maxSize: int, maxFiles: int)
    ensures var fit := Fitting(incoming, maxSize);
      var room := Room(|held|, maxFiles);
      Accepted(held, incoming, maxSize, maxFiles) == held + fit[..if room < |fit| then room else |fit|]
    decreases |incoming|
  {
    if incoming != [] {
      var f := incoming[0];
      var rest := incoming[1..];
      var fit := Fitting(rest, maxSize);
      var room := Room(|held|, maxFiles);
      if f.size > maxSize {
        AcceptedTakesFitting(held, rest, maxSize, maxFiles);
        assert Fitting(incoming, maxSize) == fit;
      } else if |held| >= maxFiles {
        assert room == 0;
      } else {
        AcceptedTakesFitting(held + [f], rest, maxSize, maxFiles);
        assert Fitting(incoming, maxSize) == [f] + fit;
        assert Room(|held + [f]|, maxFiles) == room - 1;
        var k := if room - 1 < |fit| then room - 1 else |fit|;
        assert ([f] + fit)[..k + 1] == [f] + fit[..k];
        assert held + [f] + fit[..k] == held + ([f] + fit[..k]);
      }
    }
  }

  /** The list never grows past `maxFiles`, and never shrinks. */
  lemma AcceptedBounded(held: seq<File>, incoming: seq<File>, maxSize: int, maxFiles: int)
    ensures var r := Accepted(held, incoming, maxSize, maxFiles);
      |held| <= |r| && r[..|held|] == held && (|held| <= maxFiles ==> |r| <= maxFiles)
      && forall i :: |held| <= i < |r| ==> r[i].size <= maxSize
  {
    AcceptedTakesFitting(held, incoming, maxSize, maxFiles);
    var r := Accepted(held, incoming, maxSize, maxFiles);
    var fit := Fitting(incoming, maxSize);
    forall i | |held| <= i < |r| ensures r[i].size <= maxSize {
      assert r[i] == fit[i - |held|];
      assert fit[i - |held|] in fit;
    }
  }

  /** A `parseInt` of a remove button's index: `None` stands for NaN. */
  type Index = Option<int>

  /** The picked files, as the controller holds them in its `DataTransfer`. */
  class Picked {
    const maxSize: int
    const maxFiles: int
    var files: seq<File>

    /** `connect`: no files yet. */
    constructor (maxSize: int, maxFiles: int)
      ensures this.maxSize == maxSize && this.maxFiles == maxFiles && files == []
    {
      this.maxSize := maxSize;
      this.maxFiles := maxFiles;
      files := [];
    }

    /** `filesSelected` (and `drop`, which runs the same loop on the dropped files). */
    method Add(incoming: seq<File>)
      modifies this
      ensures files == Accepted(old(files), incoming, maxSize, maxFiles)
    {
      var i := 0;
      while i < |incoming|
        invariant 0 <= i <= |incoming|
        invariant Accepted(files, incoming[i..], maxSize, maxFiles) == Accepted(old(files), incoming, maxSize, maxFiles)
      {
        var file := incoming[i];
        assert incoming[i..][1..] == incoming[i + 1..];
        if file.size > maxSize {
          i := i + 1;
          continue;
        }
        if |files| >= maxFiles {
          break;
        }
        files := files + [file];
        i := i + 1;
      }
    }

    /** `removeFile`: every file except the one at `index` is copied, in order. */
    method Remove(index: Index)
      modifies this
      ensures index.Some? && 0 <= index.value < |old(files)| ==>
        files == old(files)[..index.value] + old(files)[index.value + 1..]
      ensures !(index.Some? && 0 <= index.value < |old(files)|) ==> files == old(files)
    {
      var kept: seq<File> := [];
      var i := 0;
      while i < |files|
        invariant 0 <= i <= |files|
        invariant index.Some? && 0 <= index.value < i ==> kept == files[..index.value] + files[index.value + 1..i]
        invariant !(index.Some? && 0 <= index.value < i) ==> kept == files[..i]
      {
        if !(index.Some? && index.value == i) {
          kept := kept + [files[i]];
        }
        i := i + 1;
      }
      assert files[..|files|] == files;
      files := kept;
    }

    /** `clear`: after a submit, no files are held. */
    method Clear()
      modifies this
      ensures files == []
    {
      files := [];
    }
  }

  /** Which preview a file gets. */
  datatype PreviewKind = ImagePreview | VideoPreview | DocumentPreview

  /** `renderFilePreview`: by the MIME type's `image/` or `video/` prefix, anything else a document. */
  function KindOf(mimeType: string): (k: PreviewKind)
    ensures k == ImagePreview <==> StartsWith(mimeType, "image/")
    ensures k == VideoPreview <==> !StartsWith(mimeType, "image/") && StartsWith(mimeType, "video/")
    ensures k == DocumentPreview <==> !StartsWith(mimeType, "image/") && !StartsWith(mimeType, "video/")
  {
    if StartsWith(mimeType, "image/") then ImagePreview
    else if StartsWith(mimeType, "video/") then VideoPreview
    else DocumentPreview
  }

  /** The characters the name limit of a video preview and of a document preview allows. */
  const VideoNameLength: int := 10
  const DocumentNameLength: int := 8

  /**
   * JavaScript's `slice(start, end)`: a negative end counts from the end of the string, both
   * ends are clamped to it, and a reversed range is empty.
   */
  function Slice(s: string, start: int, end: int): (r: string)
    ensures 0 <= start <= end <= |s| ==> r == s[start..end]
    ensures start == 0 && end < 0 && |s| + end >= 0 ==> r == s[..|s| + end]
  {
    var a := if start < 0 then (if |s| + start < 0 then 0 else |s| + start) else if start > |s| then |s| else start;
    var b := if end < 0 then (if |s| + end < 0 then 0 else |s| + end) else if end > |s| then |s| else end;
    if a < b then s[a..b] else ""
  }

  /** `name.split('.').pop()`: what follows the last dot, or the whole name when it has none. */
  function Extension(name: string): (ext: string)
    ensures |ext| <= |name| && ext == name[|name| - |ext|..]
    ensures forall i :: 0 <= i < |ext| ==> ext[i] != '.'
    ensures |ext| < |name| ==> name[|name| - |ext| - 1] == '.'
  {
    if name == [] then []
    else if name[|name| - 1] == '.' then []
    else Extension(name[..|name| - 1]) + [name[|name| - 1]]
  }

  /** A name without a dot is its own extension. */
  lemma DotlessIsOwnExtension(name: string)
    requires '.' !in name
    ensures Extension(name) == name
  {
    var ext := Extension(name);
    assert forall i :: 0 <= i < |name| ==> name[i] != '.';
  }

  /** The shortening step: the part before `ext` and its dot, cut to leave room for "..." and `ext`. */
  function Shortened(name: string, maxLength: int, ext: string): (r: string)
    ensures EndsWith(r, "..." + ext)
  {
    var kept := Slice(Slice(name, 0, |name| - |ext| - 1), 0, maxLength - |ext| - 3);
    assert kept + "..." + ext == kept + ("..." + ext);
    kept + "..." + ext
  }

  /** When the extension leaves room, the shortened name is exactly `maxLength` long: a prefix, "...", the extension. */
  lemma ShortenedShape(name: string, maxLength: int, ext: string)
    requires |ext| + 3 <= maxLength < |name|
    ensures Shortened(name, maxLength, ext) == name[..maxLength - |ext| - 3] + "..." + ext
    ensures |Shortened(name, maxLength, ext)| == maxLength
  {
    var base := Slice(name, 0, |name| - |ext| - 1);
    assert base == name[..|name| - |ext| - 1];
    assert Slice(base, 0, maxLength - |ext| - 3) == name[..maxLength - |ext| - 3];
  }

  /** `truncateFilename` as written: a long name keeps its extension, taken from `split('.')`. */
  function TruncateFilenameAsWritten(name: string, maxLength: int): (r: string)
    ensures |name| <= maxLength ==> r == name
    ensures |name| > maxLength ==> EndsWith(r, "..." + Extension(name))
  {
    if |name| <= maxLength then name
    else
      Shortened(name, maxLength, Extension(name))
  }

  /** A dotted name whose extension fits comes out exactly `maxLength` long. */
  lemma TruncatedDottedName(name: string, maxLength: int)
    requires '.' in name && |name| > maxLength && |Extension(name)| + 3 <= maxLength
    ensures TruncateFilenameAsWritten(name, maxLength) == name[..maxLength - |Extension(name)| - 3] + "..." + Extension(name)
    ensures |TruncateFilenameAsWritten(name, maxLength)| == maxLength
  {
    ShortenedShape(name, maxLength, Extension(name));
  }

  /**
   * A long name without a dot is taken as its own extension and comes out longer than it went in:
   * the name in a video preview, cut at 10, is 20 characters.
   */
  lemma DotlessNameGrows()
    ensures TruncateFilenameAsWritten("IMG12345678", VideoNameLength) == "IMG123...IMG12345678"
    ensures |TruncateFilenameAsWritten("IMG12345678", VideoNameLength)| > |"IMG12345678"|
  {
    var name := "IMG12345678";
    DotlessIsOwnExtension(name);
    var base := Slice(name, 0, -1);
    assert base == name[..10];
    assert Slice(base, 0, -4) == name[..6];
    assert name[..6] == "IMG123";
  }

  /** The extension kept by the corrected shortening: none for a name without a dot. */
  function FileExtension(name: string): (ext: string)
    ensures '.' !in name ==> ext == ""
    ensures '.' in name ==> ext == Extension(name)
  {
    if '.' in name then Extension(name) else ""
  }

  /** `truncateFilename` corrected: a name without a dot is cut to `maxLength - 3` characters and "...". */
  function TruncateFilename(name: string, maxLength: int): (r: string)
    ensures |name| <= maxLength ==> r == name
    ensures |name| > maxLength ==> EndsWith(r, "..." + FileExtension(name))
  {
    if |name| <= maxLength then name
    else
      Shortened(name, maxLength, FileExtension(name))
  }

  /** The corrected name is never longer than the limit once the limit leaves room for "..." and the extension. */
  lemma TruncateFilenameFits(name: string, maxLength: int)
    requires maxLength >= |FileExtension(name)| + 3
    ensures |TruncateFilename(name, maxLength)| <= maxLength
    ensures |name| > maxLength ==>
      TruncateFilename(name, maxLength) == name[..maxLength - |FileExtension(name)| - 3] + "..." + FileExtension(name)
  {
    if |name| > maxLength {
      ShortenedShape(name, maxLength, FileExtension(name));
    }
  }
}
