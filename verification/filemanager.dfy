/** The upload handler of the file-manager routes: for each uploaded file it
    strips the data-URL header from the payload (the `data:` URL syntax of
    section 3 of RFC 2397), names the file after a timestamp and the original
    name, classifies it as an image or a video by the extension of that name,
    and reports `{name, type, url}`. The file write itself is represented by
    the name and payload the handler would write. */
module FileManager {
  import opened Text
  import opened Schema

  datatype FileType = Image | Video

  /** One entry of the request's `files`. */
  datatype UploadFile = UploadFile(name: string, data: string)

  /** One entry of the response's `files`. */
  datatype UploadedFile = UploadedFile(name: string, fileType: FileType, url: string)

  /** One write to the uploads directory: the file name and the base64 text. */
  datatype FileWrite = FileWrite(fileName: string, base64Data: string)

  const ImageExtensions: seq<string> := ["jpg", "jpeg", "png", "gif", "bmp", "webp", "svg", "tiff"]
  const VideoExtensions: seq<string> := ["mp4", "mkv", "webm", "avi", "mov", "wmv", "flv", "3gp"]

  // ---------------------------------------------------------------------------
  // Splitting a name on '.'
  // ---------------------------------------------------------------------------

  /** Joins parts with a separator between each two neighbours. */
  function Join(parts: seq<string>, sep: char): string
    requires |parts| >= 1
  {
    if |parts| == 1 then parts[0] else Join(parts[..|parts| - 1], sep) + [sep] + parts[|parts| - 1]
  }

  /** JavaScript's `s.split(sep)` for a one-character separator: the maximal
      separator-free pieces of `s`, including empty ones, which joined again
      give back `s`. */
  function Split(s: string, sep: char): (parts: seq<string>)
    ensures |parts| >= 1
    ensures forall k :: 0 <= k < |parts| ==> sep !in parts[k]
    ensures Join(parts, sep) == s
  {
    if s == [] then [[]]
    else
      var init := Split(s[..|s| - 1], sep);
      var c := s[|s| - 1];
      assert s == s[..|s| - 1] + [c];
      if c == sep then
        assert (init + [[]])[..|init|] == init;
        init + [[]]
      else
        var n := |init|;
        var parts := init[..n - 1] + [init[n - 1] + [c]];
        assert parts[..n - 1] == init[..n - 1];
        parts
  }

  /** A separator-free string splits into itself alone. */
  lemma {:induction false} SplitWithoutSeparator(s: string, sep: char)
    requires sep !in s
    ensures Split(s, sep) == [s]
  {
    if s != [] {
      assert sep !in s[..|s| - 1];
      SplitWithoutSeparator(s[..|s| - 1], sep);
      assert s == s[..|s| - 1] + [s[|s| - 1]];
    }
  }

  /** Appending a separator and a separator-free piece appends that piece to
      the split. */
  lemma {:induction false} SplitAppend(x: string, sep: char, y: string)
    requires sep !in y
    ensures Split(x + [sep] + y, sep) == Split(x, sep) + [y]
  {
    if y == [] {
      SplitSnoc(x, sep, sep);
      assert x + [sep] + y == x + [sep];
    } else {
      var y', c := y[..|y| - 1], y[|y| - 1];
      assert sep !in y' && c != sep;
      SplitAppend(x, sep, y');
      SplitSnoc(x + [sep] + y', c, sep);
      assert (x + [sep] + y') + [c] == x + [sep] + y;
      assert y' + [c] == y;
    }
  }

  /** One step of `Split`: a trailing separator opens an empty last part,
      any other character extends the last part. */
  lemma SplitSnoc(s: string, c: char, sep: char)
    ensures var init := Split(s, sep);
      Split(s + [c], sep) == if c == sep then init + [[]]
                             else init[..|init| - 1] + [init[|init| - 1] + [c]]
  {
    assert (s + [c])[..|s|] == s;
  }

  /** Splitting undoes joining: separator-free parts joined with the
      separator split back into the same parts. */
  lemma {:induction false} SplitJoin(parts: seq<string>, sep: char)
    requires |parts| >= 1
    requires forall k :: 0 <= k < |parts| ==> sep !in parts[k]
    ensures Split(Join(parts, sep), sep) == parts
  {
    if |parts| == 1 {
      SplitWithoutSeparator(parts[0], sep);
    } else {
      var init, last := parts[..|parts| - 1], parts[|parts| - 1];
      assert forall k :: 0 <= k < |init| ==> init[k] == parts[k];
      SplitJoin(init, sep);
      assert Join(parts, sep) == Join(init, sep) + [sep] + last;
      SplitAppend(Join(init, sep), sep, last);
      assert init + [last] == parts;
    }
  }

  // ---------------------------------------------------------------------------
  // Extension and classification
  // ---------------------------------------------------------------------------

  /** `fileName.split('.').pop()`. */
  function LastSegment(fileName: string): string {
    var parts := Split(fileName, '.');
    parts[|parts| - 1]
  }

  /** `fileName.split('.').pop().toLowerCase()`. */
  function Extension(fileName: string): string {
    ToLower(LastSegment(fileName))
  }

  /** The last segment is the longest dot-free suffix of the name: the whole
      name when it has no dot, otherwise what follows its last dot. */
  lemma LastSegmentIsDotFreeSuffix(fileName: string)
    ensures var r := LastSegment(fileName);
      && '.' !in r && |r| <= |fileName| && r == fileName[|fileName| - |r|..]
      && ('.' in fileName <==> |r| < |fileName|)
      && (|r| < |fileName| ==> fileName[|fileName| - |r| - 1] == '.')
  {
    var parts := Split(fileName, '.');
    var r := parts[|parts| - 1];
    if |parts| == 1 {
      assert fileName == r;
    } else {
      var head := Join(parts[..|parts| - 1], '.');
      assert fileName == head + ['.'] + r;
      assert fileName[|fileName| - |r| - 1] == '.';
      assert '.' in fileName;
    }
  }

  /** Putting anything in front of a name that has a dot does not change its
      extension. */
  lemma PrefixKeepsExtension(prefix: string, fileName: string)
    requires '.' in fileName
    ensures LastSegment(prefix + fileName) == LastSegment(fileName)
    ensures Extension(prefix + fileName) == Extension(fileName)
  {
    PrefixKeepsLastSegment(prefix, fileName);
  }

  lemma PrefixKeepsLastSegment(prefix: string, fileName: string)
    requires '.' in fileName
    ensures LastSegment(prefix + fileName) == LastSegment(fileName)
  {
    var r := LastSegment(fileName);
    LastSegmentIsDotFreeSuffix(fileName);
    var k := |fileName| - |r| - 1;
    var head := fileName[..k];
    assert fileName[k..] == ['.'] + r;
    assert fileName == head + fileName[k..];
    assert prefix + fileName == (prefix + head) + ['.'] + r;
    SplitAppend(prefix + head, '.', r);
  }

  /** `isImageFile`. */
  predicate IsImageFile(fileName: string) {
    Extension(fileName) in ImageExtensions
  }

  /** `isVideoFile`. */
  predicate IsVideoFile(fileName: string) {
    Extension(fileName) in VideoExtensions
  }

  /** No extension is both an image and a video extension, so the handler's
      "image first, then video, else image" choice yields a video exactly for
      the video extensions. */
  lemma ExtensionListsDisjoint(fileName: string)
    ensures !(IsImageFile(fileName) && IsVideoFile(fileName))
  {
    NoExtensionInBothLists(Extension(fileName));
  }

  /** The two extension lists share no entry. */
  lemma NoExtensionInBothLists(e: string)
    ensures !(e in ImageExtensions && e in VideoExtensions)
  {
    if e in VideoExtensions {
      var j :| 0 <= j < |VideoExtensions| && VideoExtensions[j] == e;
      assert forall i :: 0 <= i < |ImageExtensions| ==> ImageExtensions[i] != VideoExtensions[j];
    }
  }

  /** No listed extension contains a '-' or a 'z', so a text holding either
      is in neither list. */
  lemma UnlistedCharacter(e: string, c: char)
    requires c in e && (c == '-' || c == 'z')
    ensures e !in ImageExtensions && e !in VideoExtensions
  {
    assert forall i :: 0 <= i < |ImageExtensions| ==> c !in ImageExtensions[i];
    assert forall i :: 0 <= i < |VideoExtensions| ==> c !in VideoExtensions[i];
  }

  /** A dot-free stamped name has no extension of its own: its whole text,
      with the '-' in it, is matched against the lists and matches neither. */
  lemma DotlessNameMatchesNoList(stamp: string, name: string)
    requires '.' !in stamp && '.' !in name
    ensures !IsImageFile(stamp + "-" + name) && !IsVideoFile(stamp + "-" + name)
  {
    var fileName := stamp + "-" + name;
    assert fileName[|stamp|] == '-';
    assert '.' !in fileName;
    SplitWithoutSeparator(fileName, '.');
    assert Extension(fileName) == ToLower(fileName);
    LowerKeeps(fileName, '-');
    UnlistedCharacter(Extension(fileName), '-');
  }

  /** The name and extension of `base.ext` when `base` has no dot. */
  lemma ExtensionOfDottedName(base: string, ext: string)
    requires '.' !in base && '.' !in ext
    ensures Extension(base + "." + ext) == ToLower(ext)
  {
    SplitWithoutSeparator(base, '.');
    SplitAppend(base, '.', ext);
    assert base + "." + ext == base + ['.'] + ext;
  }

  // The examples below fix the file name through `requires` rather than
  // writing the literal into `ensures`: the verifier then unfolds the
  // literal's characters once, inside the proof, which keeps each example
  // well inside the solver's resource budget.

  /** An upper-case image extension still counts as an image. */
  lemma UpperCaseImageExample(fileName: string)
    requires fileName == "photo.PNG"
    ensures IsImageFile(fileName)
  {
    ExtensionOfDottedName("photo", "PNG");
    assert fileName == "photo" + "." + "PNG";
    assert LowerChar('P') == 'p' && LowerChar('N') == 'n' && LowerChar('G') == 'g';
    assert ToLower("PNG") == "png";
    assert Extension(fileName) == ImageExtensions[2];
  }

  /** A listed video extension counts as a video and not as an image. */
  lemma VideoExample(fileName: string)
    requires fileName == "clip.mkv"
    ensures IsVideoFile(fileName) && !IsImageFile(fileName)
  {
    ExtensionOfDottedName("clip", "mkv");
    assert fileName == "clip" + "." + "mkv";
    assert ToLower("mkv") == "mkv";
    assert Extension(fileName) == VideoExtensions[1];
    ExtensionListsDisjoint(fileName);
  }

  /** An unknown extension matches neither list, so the handler's default,
      `image`, applies. */
  lemma UnknownExtensionExample(fileName: string)
    requires fileName == "archive.zip"
    ensures !IsImageFile(fileName) && !IsVideoFile(fileName)
  {
    ExtensionOfDottedName("archive", "zip");
    assert fileName == "archive" + "." + "zip";
    assert ToLower("zip") == "zip";
    assert Extension(fileName) == "zip";
    UnlistedCharacter("zip", 'z');
  }

  // ---------------------------------------------------------------------------
  // The data-URL header: /^data:.*;base64,/
  // ---------------------------------------------------------------------------

  const DataScheme: string := "data:"
  const Base64Marker: string := ";base64,"

  /** The characters a regular-expression `.` does not match. */
  predicate IsLineTerminator(c: char) {
    c == '\n' || c == '\r' || c == '\U{2028}' || c == '\U{2029}'
  }

  predicate MarkerAt(s: string, k: nat) {
    k + |Base64Marker| <= |s| && s[k..k + |Base64Marker|] == Base64Marker
  }

  /** The pattern matches `data[..k + 8]`: the text starts with `data:`,
      `;base64,` starts at `k`, and no line terminator lies in between. */
  predicate HeaderEndsAt(data: string, k: nat) {
    && |DataScheme| <= k
    && MarkerAt(data, k)
    && data[..|DataScheme|] == DataScheme
    && forall i :: |DataScheme| <= i < k ==> !IsLineTerminator(data[i])
  }

  /** The first line terminator at or after `from`, or the end. */
  function LineEnd(s: string, from: nat): (e: nat)
    requires from <= |s|
    ensures from <= e <= |s|
    ensures forall i :: from <= i < e ==> !IsLineTerminator(s[i])
    ensures e < |s| ==> IsLineTerminator(s[e])
    decreases |s| - from
  {
    if from == |s| || IsLineTerminator(s[from]) then from else LineEnd(s, from + 1)
  }

  /** The largest position in `lo..hi` where the marker starts, if any. */
  function LastMarker(s: string, lo: nat, hi: int): (k: Option<nat>)
    ensures k.Some? ==> lo <= k.value <= hi && MarkerAt(s, k.value)
    ensures k.Some? ==> forall j: nat :: k.value < j <= hi ==> !MarkerAt(s, j)
    ensures k.None? ==> forall j: nat :: lo <= j <= hi ==> !MarkerAt(s, j)
    decreases hi - lo
  {
    if hi < lo then None
    else if MarkerAt(s, hi) then Some(hi)
    else LastMarker(s, lo, hi - 1)
  }

  /** `data.replace(/^data:.*;base64,/, '')`: when the text starts with
      `data:`, the match, if any, ends at the last marker that starts before
      the first line break. */
  function StripDataUrlHeader(data: string): string {
    if |data| >= |DataScheme| && data[..|DataScheme|] == DataScheme then
      match LastMarker(data, |DataScheme|, LineEnd(data, |DataScheme|))
      case None => data
      case Some(k) => data[k + |Base64Marker|..]
    else
      data
  }

  /** The replacement removes the greedy match: with no match the data is
      kept; otherwise the match ends at the largest position where the
      pattern can end, and everything after it is kept. */
  lemma StripRemovesGreedyMatch(data: string)
    ensures (forall k: nat :: !HeaderEndsAt(data, k)) ==> StripDataUrlHeader(data) == data
    ensures (exists k: nat :: HeaderEndsAt(data, k)) ==>
      exists k: nat :: && HeaderEndsAt(data, k)
                       && (forall j: nat :: HeaderEndsAt(data, j) ==> j <= k)
                       && StripDataUrlHeader(data) == data[k + |Base64Marker|..]
  {
    if |data| >= |DataScheme| && data[..|DataScheme|] == DataScheme {
      var e := LineEnd(data, |DataScheme|);
      assert forall j: nat :: HeaderEndsAt(data, j) ==> j <= e;
      match LastMarker(data, |DataScheme|, e)
      case None =>
      case Some(k) =>
        assert HeaderEndsAt(data, k);
    }
  }

  /** Section 3 of RFC 2397: a base64 data URL is `data:`, a media type,
      `;base64,` and the encoded text, whose alphabet has no ';'. Stripping
      the header of such a URL gives back exactly the encoded text. */
  lemma StripRoundTrip(mediaType: string, payload: string)
    requires forall i :: 0 <= i < |mediaType| ==> !IsLineTerminator(mediaType[i])
    requires ';' !in payload
    ensures StripDataUrlHeader(DataScheme + mediaType + Base64Marker + payload) == payload
  {
    var data := DataScheme + mediaType + Base64Marker + payload;
    var k0 := |DataScheme| + |mediaType|;
    assert data[..|DataScheme|] == DataScheme;
    assert data[k0..k0 + |Base64Marker|] == Base64Marker;
    assert MarkerAt(data, k0);
    assert forall i :: |DataScheme| <= i < k0 ==> data[i] == mediaType[i - |DataScheme|];
    var e := LineEnd(data, |DataScheme|);
    assert k0 <= e;
    NoSemicolonAfterMarker(DataScheme + mediaType, payload);
    var last := LastMarker(data, |DataScheme|, e);
    assert last.Some?;
    assert MarkerAt(data, last.value);
    assert data[last.value] == Base64Marker[0];
    assert last.value == k0;
    assert data[k0 + |Base64Marker|..] == payload;
  }

  /** After the `;` that opens the marker, the rest of the marker and a
      payload without `;` hold no further `;`. */
  lemma NoSemicolonAfterMarker(head: string, payload: string)
    requires ';' !in payload
    ensures var data := head + Base64Marker + payload;
      forall j :: |head| < j < |data| ==> data[j] != ';'
  {
    var data := head + Base64Marker + payload;
    forall j | |head| < j < |data|
      ensures data[j] != ';'
    {
      if j < |head| + |Base64Marker| {
        assert data[j] == Base64Marker[j - |head|];
      } else {
        assert data[j] == payload[j - |head| - |Base64Marker|];
      }
    }
  }

  // ---------------------------------------------------------------------------
  // The upload loop
  // ---------------------------------------------------------------------------

  /** `Date.now() + '-' + file.name`. */
  function StampedName(stamp: string, name: string): string {
    stamp + "-" + name
  }

  /** The response entry for one file: its original name, `video` exactly
      when the stamped name has a video extension and `image` otherwise, and
      the URL of the stamped name. */
  function EntryFor(file: UploadFile, stamp: string): UploadedFile {
    var fileName := StampedName(stamp, file.name);
    UploadedFile(file.name, if IsVideoFile(fileName) then Video else Image, "/uploads/" + fileName)
  }

  /** The write for one file: the stripped payload under the stamped name. */
  function WriteFor(file: UploadFile, stamp: string): FileWrite {
    FileWrite(StampedName(stamp, file.name), StripDataUrlHeader(file.data))
  }

  /** The handler's chain (`image` by default, `image` if the name has an
      image extension, else `video` if it has a video extension) gives the
      type `EntryFor` states, because no extension is in both lists. */
  lemma EntryMatchesChain(file: UploadFile, stamp: string, fileType: FileType)
    requires var fileName := StampedName(stamp, file.name);
      fileType == if IsImageFile(fileName) then Image
                  else if IsVideoFile(fileName) then Video
                  else Image
    ensures EntryFor(file, stamp)
      == UploadedFile(file.name, fileType, "/uploads/" + StampedName(stamp, file.name))
  {
    ExtensionListsDisjoint(StampedName(stamp, file.name));
  }

  /** The body of the handler's per-file loop: strip the header, stamp the
      name, queue the write and classify the stamped name. */
  method UploadOne(file: UploadFile, stamp: string) returns (entry: UploadedFile, write: FileWrite)
    ensures entry == EntryFor(file, stamp)
    ensures write == WriteFor(file, stamp)
  {
    var base64Data := StripDataUrlHeader(file.data);
    var fileName := stamp + "-" + file.name;
    write := FileWrite(fileName, base64Data);
    var fileType := Image;
    if IsImageFile(fileName) {
      fileType := Image;
    } else if IsVideoFile(fileName) {
      fileType := Video;
    }
    EntryMatchesChain(file, stamp, fileType);
    entry := UploadedFile(file.name, fileType, "/uploads/" + fileName);
  }

  /** The response entries for a run of files, in input order. */
  function Entries(files: seq<UploadFile>, stamps: seq<string>): (r: seq<UploadedFile>)
    requires |stamps| == |files|
    ensures |r| == |files|
    ensures forall i :: 0 <= i < |files| ==> r[i] == EntryFor(files[i], stamps[i])
  {
    if files == [] then []
    else
      var n := |files| - 1;
      Entries(files[..n], stamps[..n]) + [EntryFor(files[n], stamps[n])]
  }

  /** The writes for a run of files, in input order. */
  function Writes(files: seq<UploadFile>, stamps: seq<string>): (r: seq<FileWrite>)
    requires |stamps| == |files|
    ensures |r| == |files|
    ensures forall i :: 0 <= i < |files| ==> r[i] == WriteFor(files[i], stamps[i])
  {
    if files == [] then []
    else
      var n := |files| - 1;
      Writes(files[..n], stamps[..n]) + [WriteFor(files[n], stamps[n])]
  }

  /** The per-file loop of the `/upload` handler. `stamps[i]` is the decimal
      text of the clock reading taken for the i-th file. The response has one
      entry per file, in input order, and one write per file beside it. */
  method Upload(files: seq<UploadFile>, stamps: seq<string>)
    returns (uploaded: seq<UploadedFile>, writes: seq<FileWrite>)
    requires |stamps| == |files|
    ensures uploaded == Entries(files, stamps)
    ensures writes == Writes(files, stamps)
  {
    uploaded, writes := [], [];
    for i := 0 to |files|
      invariant uploaded == Entries(files[..i], stamps[..i])
      invariant writes == Writes(files[..i], stamps[..i])
    {
      var entry, write := UploadOne(files[i], stamps[i]);
      ghost var fs, ss := files[..i + 1], stamps[..i + 1];
      assert fs[..i] == files[..i] && ss[..i] == stamps[..i];
      writes := writes + [write];
      uploaded := uploaded + [entry];
    }
    assert files[..|files|] == files && stamps[..|files|] == stamps;
  }

  /** For an original name with a dot, the stamp does not affect the type:
      the entry is a video exactly when the original name has a video
      extension. */
  lemma StampedTypeFollowsOriginal(stamp: string, name: string)
    requires '.' in name
    ensures IsVideoFile(StampedName(stamp, name)) <==> IsVideoFile(name)
    ensures IsImageFile(StampedName(stamp, name)) <==> IsImageFile(name)
  {
    assert StampedName(stamp, name) == (stamp + "-") + name;
    PrefixKeepsExtension(stamp + "-", name);
  }
}
