/** File-name classification of the library: the extension and category a
    `File` records on save, its display name, the `File.clean` checks
    (admin_app/models.py), and the chat template filter that picks an icon
    from a file name (chat_app/templatetags/custom_filters.py).

    Paths use '/' as the only separator, as `os.path` does on POSIX. */
module Files {
  import opened Text
  import opened Outcomes

  // ---------------------------------------------------------------------
  // os.path.basename / os.path.splitext
  // ---------------------------------------------------------------------

  /** `os.path.basename`: everything after the last '/'. */
  function Basename(p: string): (b: string)
    ensures '/' !in b
    ensures |b| <= |p| && b == p[|p| - |b|..]
    ensures |b| < |p| ==> p[|p| - |b| - 1] == '/'
  {
    p[LastIndexOf(p, '/') + 1..]
  }

  /** Some character in `p[lo..hi]` is not a dot. */
  predicate HasNonDot(p: string, lo: int, hi: int)
    requires 0 <= lo && hi <= |p|
  {
    exists k :: lo <= k < hi && p[k] != '.'
  }

  /** `os.path.splitext` (POSIX): the extension starts at the last dot of
      the last path component, provided that dot is not part of the run of
      dots the component begins with; otherwise there is no extension. */
  function SplitExt(p: string): (r: (string, string))
    ensures r.0 + r.1 == p
    ensures r.1 != "" ==> r.1[0] == '.' && '.' !in r.1[1..] && '/' !in r.1
    ensures r.1 != "" ==> |r.0| == LastIndexOf(p, '.')
  {
    var sepIndex := LastIndexOf(p, '/');
    var dotIndex := LastIndexOf(p, '.');
    if dotIndex > sepIndex && HasNonDot(p, sepIndex + 1, dotIndex) then
      (p[..dotIndex], p[dotIndex..])
    else
      (p, "")
  }

  /** `s.replace(c, '')`. */
  function RemoveChar(s: string, c: char): (r: string)
    ensures c !in r
    ensures |r| <= |s|
  {
    if |s| == 0 then ""
    else (if s[0] == c then "" else [s[0]]) + RemoveChar(s[1..], c)
  }

  lemma {:induction false} RemoveAbsentChar(s: string, c: char)
    requires c !in s
    ensures RemoveChar(s, c) == s
  {
    if |s| > 0 {
      RemoveAbsentChar(s[1..], c);
    }
  }

  const UnknownExtension: string := "unknown"

  /** `File.get_file_extension`: the lower-cased extension without its dot,
      or "unknown" when there is none. */
  function GetFileExtension(p: string): (r: string)
    ensures r != ""
    ensures '.' !in r && '/' !in r
    ensures forall i :: 0 <= i < |r| ==> !IsAsciiUpper(r[i])
    ensures SplitExt(p).1 == "" ==> r == UnknownExtension
    ensures SplitExt(p).1 != "" ==>
      r == if |SplitExt(p).1| == 1 then UnknownExtension else Lower(SplitExt(p).1[1..])
  {
    var ext := SplitExt(p).1;
    var tail := if ext == "" then "" else ext[1..];
    ExtensionOfDotted(tail);
    assert ext != "" ==> ext == "." + tail;
    var e := RemoveChar(Lower(ext), '.');
    LowerHasNoSlash(ext);
    LowerHasNoUpper(e, ext);
    UnknownExtensionShape();
    if e == "" then UnknownExtension else e
  }

  lemma UnknownExtensionShape()
    ensures UnknownExtension != "" && '.' !in UnknownExtension && '/' !in UnknownExtension
    ensures forall i :: 0 <= i < |UnknownExtension| ==> !IsAsciiUpper(UnknownExtension[i])
  {
  }

  lemma LowerHasNoSlash(s: string)
    requires '/' !in s
    ensures '/' !in Lower(s)
  {
    forall i | 0 <= i < |s| ensures Lower(s)[i] != '/' {
      LowerCharFacts(s[i]);
    }
  }

  lemma {:induction false} LowerHasNoUpper(e: string, ext: string)
    requires e == RemoveChar(Lower(ext), '.')
    ensures forall i :: 0 <= i < |e| ==> !IsAsciiUpper(e[i])
    ensures '/' !in ext ==> '/' !in e
    decreases |ext|
  {
    if |ext| > 0 {
      LowerCharFacts(ext[0]);
      assert Lower(ext)[1..] == Lower(ext[1..]);
      LowerHasNoUpper(RemoveChar(Lower(ext[1..]), '.'), ext[1..]);
    }
  }

  /** The extension of a name put together from a directory, a stem that is
      not only dots, and an extension: `splitext` takes it apart again and
      `get_file_extension` returns the extension lower-cased. */
  lemma ExtensionOfJoinedName(dir: string, stem: string, e: string)
    requires dir == "" || dir[|dir| - 1] == '/'
    requires '/' !in stem && HasNonDot(stem, 0, |stem|)
    requires '.' !in e && '/' !in e
    ensures SplitExt(dir + stem + "." + e) == (dir + stem, "." + e)
    ensures GetFileExtension(dir + stem + "." + e) == if e == "" then UnknownExtension else Lower(e)
  {
    SplitJoinedName(dir, stem, e);
    ExtensionOfDotted(e);
  }

  lemma SplitJoinedName(dir: string, stem: string, e: string)
    requires dir == "" || dir[|dir| - 1] == '/'
    requires '/' !in stem && HasNonDot(stem, 0, |stem|)
    requires '.' !in e && '/' !in e
    ensures SplitExt(dir + stem + "." + e) == (dir + stem, "." + e)
  {
    var p := dir + stem + "." + e;
    var dotIndex := |dir| + |stem|;
    assert p[dotIndex] == '.';
    forall i | dotIndex < i < |p| ensures p[i] != '.' && p[i] != '/' {
      assert p[i] == e[i - dotIndex - 1];
    }
    assert LastIndexOf(p, '.') == dotIndex by {
      LastIndexOfUnique(p, '.', dotIndex);
    }
    var sepIndex := LastIndexOf(p, '/');
    assert sepIndex < |dir| by {
      forall i | |dir| <= i < dotIndex ensures p[i] != '/' {
        assert p[i] == stem[i - |dir|];
      }
    }
    if dir != "" {
      assert p[|dir| - 1] == '/';
      assert sepIndex == |dir| - 1;
    }
    var k :| 0 <= k < |stem| && stem[k] != '.';
    assert p[|dir| + k] == stem[k];
    assert HasNonDot(p, sepIndex + 1, dotIndex);
    assert p[..dotIndex] == dir + stem;
    assert p[dotIndex..] == "." + e;
  }

  /** The extension field of an extension with one leading dot is the rest,
      lower-cased. */
  lemma ExtensionOfDotted(e: string)
    requires '.' !in e
    ensures RemoveChar(Lower("." + e), '.') == Lower(e)
  {
    var lowered := Lower("." + e);
    assert lowered == "." + Lower(e);
    LowerCharFacts('.');
    assert '.' !in Lower(e) by {
      forall i | 0 <= i < |e| ensures Lower(e)[i] != '.' { LowerCharFacts(e[i]); }
    }
    RemoveAbsentChar(Lower(e), '.');
    assert lowered[1..] == Lower(e);
  }

  /** `rfind` is pinned down by its contract. */
  lemma LastIndexOfUnique(s: string, c: char, k: int)
    requires -1 <= k < |s|
    requires k >= 0 ==> s[k] == c
    requires forall i :: k < i < |s| ==> s[i] != c
    ensures LastIndexOf(s, c) == k
  {
  }

  /** A base name with no dot after its leading dots (`.bashrc`, `README`)
      has no extension. */
  lemma NoDotNoExtension(dir: string, dots: nat, name: string)
    requires dir == "" || dir[|dir| - 1] == '/'
    requires '.' !in name && '/' !in name
    ensures GetFileExtension(dir + seq(dots, _ => '.') + name) == UnknownExtension
  {
    var leading := seq(dots, _ => '.');
    var p := dir + leading + name;
    var start := |dir| + dots;
    forall i | |dir| <= i < |p| ensures p[i] != '/' {
      if i < start { assert p[i] == leading[i - |dir|]; } else { assert p[i] == name[i - start]; }
    }
    forall i | start <= i < |p| ensures p[i] != '.' {
      assert p[i] == name[i - start];
    }
    var sepIndex := LastIndexOf(p, '/');
    var dotIndex := LastIndexOf(p, '.');
    assert sepIndex == |dir| - 1 by {
      if dir != "" { assert p[|dir| - 1] == '/'; }
      LastIndexOfUnique(p, '/', |dir| - 1);
    }
    assert dotIndex < start;
    forall k | sepIndex + 1 <= k < dotIndex ensures p[k] == '.' {
      assert p[k] == leading[k - |dir|];
    }
    assert !HasNonDot(p, sepIndex + 1, dotIndex);
    assert SplitExt(p).1 == "";
    assert Lower("") == "";
  }

  // ---------------------------------------------------------------------
  // Categories
  // ---------------------------------------------------------------------

  datatype Category =
    Documents | Images | Audio | Video | Archives | CodeAndMarkup | Miscellaneous | Unknown

  /** The strings `detect_category` stores. */
  function CategoryLabel(c: Category): string {
    match c
    case Documents => "Documents"
    case Images => "Images"
    case Audio => "Audio"
    case Video => "Video"
    case Archives => "Archives"
    case CodeAndMarkup => "Code and Markup"
    case Miscellaneous => "Miscellaneous"
    case Unknown => "Unknown"
  }

  const DocExt: set<string> := {"pdf", "doc", "docx", "txt", "rtf", "odt", "xls", "xlsx", "csv", "ppt", "pptx"}
  const ImgExt: set<string> := {"jpg", "jpeg", "png", "gif", "bmp", "tiff", "webp", "svg"}
  const AudioExt: set<string> := {"mp3", "wav", "aac", "ogg", "wma", "flac"}
  const VideoExt: set<string> := {"mp4", "avi", "mkv", "mov", "wmv", "flv", "webm"}
  const ArchiveExt: set<string> := {"zip", "rar", "7z", "tar", "gz", "bz2"}
  const CodeExt: set<string> := {"html", "css", "js", "json", "xml", "yaml", "py", "java", "cpp", "c", "h", "php", "sql"}
  const MiscExt: set<string> := {"md", "epub", "mobi", "exe", "apk", "iso", "dmg"}

  /** The upload whitelist of the `file` field, in its declared order and
      in the groups its comments name. */
  const DocumentUploads: seq<string> := ["pdf", "doc", "docx", "txt", "rtf", "odt", "xls", "xlsx", "csv", "ppt", "pptx"]
  const ImageUploads: seq<string> := ["jpg", "jpeg", "png", "gif", "bmp", "tiff", "webp", "svg"]
  const AudioUploads: seq<string> := ["mp3", "wav", "aac", "ogg", "wma", "flac"]
  const VideoUploads: seq<string> := ["mp4", "avi", "mkv", "mov", "wmv", "flv", "webm"]
  const ArchiveUploads: seq<string> := ["zip", "rar", "7z", "tar", "gz", "bz2"]
  const CodeUploads: seq<string> := ["html", "css", "js", "json", "xml", "yaml", "py", "java", "cpp", "c", "h", "php", "sql"]
  const MiscUploads: seq<string> := ["md", "epub", "mobi", "exe", "apk", "iso", "dmg"]
  const AllowedExtensionList: seq<string> :=
    DocumentUploads + ImageUploads + AudioUploads + VideoUploads + ArchiveUploads + CodeUploads + MiscUploads

  lemma DocumentsOnly(e: string)
    requires e in DocExt
    ensures e !in ImgExt && e !in AudioExt && e !in VideoExt && e !in ArchiveExt && e !in CodeExt && e !in MiscExt
  {
  }

  lemma ImagesOnly(e: string)
    requires e in ImgExt
    ensures e !in DocExt && e !in AudioExt && e !in VideoExt && e !in ArchiveExt && e !in CodeExt && e !in MiscExt
  {
  }

  lemma AudioOnly(e: string)
    requires e in AudioExt
    ensures e !in DocExt && e !in ImgExt && e !in VideoExt && e !in ArchiveExt && e !in CodeExt && e !in MiscExt
  {
  }

  lemma VideoOnly(e: string)
    requires e in VideoExt
    ensures e !in DocExt && e !in ImgExt && e !in AudioExt && e !in ArchiveExt && e !in CodeExt && e !in MiscExt
  {
  }

  lemma ArchivesOnly(e: string)
    requires e in ArchiveExt
    ensures e !in DocExt && e !in ImgExt && e !in AudioExt && e !in VideoExt && e !in CodeExt && e !in MiscExt
  {
  }

  lemma CodeOnly(e: string)
    requires e in CodeExt
    ensures e !in DocExt && e !in ImgExt && e !in AudioExt && e !in VideoExt && e !in ArchiveExt && e !in MiscExt
  {
  }

  lemma MiscOnly(e: string)
    requires e in MiscExt
    ensures e !in DocExt && e !in ImgExt && e !in AudioExt && e !in VideoExt && e !in ArchiveExt && e !in CodeExt
  {
  }

  /** The seven category sets are pairwise disjoint: an extension lies in
      at most one of them. */
  lemma AtMostOneCategorySet(e: string)
    ensures e in DocExt ==> e !in ImgExt && e !in AudioExt && e !in VideoExt && e !in ArchiveExt && e !in CodeExt && e !in MiscExt
    ensures e in ImgExt ==> e !in AudioExt && e !in VideoExt && e !in ArchiveExt && e !in CodeExt && e !in MiscExt
    ensures e in AudioExt ==> e !in VideoExt && e !in ArchiveExt && e !in CodeExt && e !in MiscExt
    ensures e in VideoExt ==> e !in ArchiveExt && e !in CodeExt && e !in MiscExt
    ensures e in ArchiveExt ==> e !in CodeExt && e !in MiscExt
    ensures e in CodeExt ==> e !in MiscExt
  {
    if e in DocExt { DocumentsOnly(e); }
    if e in ImgExt { ImagesOnly(e); }
    if e in AudioExt { AudioOnly(e); }
    if e in VideoExt { VideoOnly(e); }
    if e in ArchiveExt { ArchivesOnly(e); }
    if e in CodeExt { CodeOnly(e); }
  }

  /** The if-chain of `detect_category` on an extension. Because the sets are
      disjoint, each category is reached exactly for the extensions of its
      own set, whatever the order of the tests. */
  function CategoryOfExtension(ext: string): (c: Category)
    ensures c == Documents <==> ext in DocExt
    ensures c == Images <==> ext in ImgExt
    ensures c == Audio <==> ext in AudioExt
    ensures c == Video <==> ext in VideoExt
    ensures c == Archives <==> ext in ArchiveExt
    ensures c == CodeAndMarkup <==> ext in CodeExt
    ensures c == Miscellaneous <==> ext in MiscExt
  {
    AtMostOneCategorySet(ext);
    if ext in DocExt then Documents
    else if ext in ImgExt then Images
    else if ext in AudioExt then Audio
    else if ext in VideoExt then Video
    else if ext in ArchiveExt then Archives
    else if ext in CodeExt then CodeAndMarkup
    else if ext in MiscExt then Miscellaneous
    else Unknown
  }

  /** `File.detect_category`. */
  function DetectCategory(p: string): (c: Category)
    ensures c != Unknown <==> GetFileExtension(p) in AllowedExtensionList
    ensures c == Documents <==> GetFileExtension(p) in DocExt
    ensures c == Images <==> GetFileExtension(p) in ImgExt
    ensures c == Audio <==> GetFileExtension(p) in AudioExt
    ensures c == Video <==> GetFileExtension(p) in VideoExt
    ensures c == Archives <==> GetFileExtension(p) in ArchiveExt
    ensures c == CodeAndMarkup <==> GetFileExtension(p) in CodeExt
    ensures c == Miscellaneous <==> GetFileExtension(p) in MiscExt
  {
    WhitelistMatchesCategories(GetFileExtension(p));
    CategoryOfExtension(GetFileExtension(p))
  }

  lemma DocumentGroup(e: string) ensures e in DocumentUploads <==> e in DocExt {}
  lemma ImageGroup(e: string) ensures e in ImageUploads <==> e in ImgExt {}
  lemma AudioGroup(e: string) ensures e in AudioUploads <==> e in AudioExt {}
  lemma VideoGroup(e: string) ensures e in VideoUploads <==> e in VideoExt {}
  lemma ArchiveGroup(e: string) ensures e in ArchiveUploads <==> e in ArchiveExt {}
  lemma CodeGroup(e: string) ensures e in CodeUploads <==> e in CodeExt {}
  lemma MiscGroup(e: string) ensures e in MiscUploads <==> e in MiscExt {}

  /** The upload whitelist is exactly the union of the category sets: every
      whitelisted extension gets a real category, and nothing else does. */
  lemma WhitelistMatchesCategories(ext: string)
    ensures ext in AllowedExtensionList <==> CategoryOfExtension(ext) != Unknown
  {
    DocumentGroup(ext);
    ImageGroup(ext);
    AudioGroup(ext);
    VideoGroup(ext);
    ArchiveGroup(ext);
    CodeGroup(ext);
    MiscGroup(ext);
  }

  /** Whatever `detect_category` and `get_file_extension` store for a
      whitelisted upload fits the `category` (20) and `type` (10) columns. */
  lemma StoredValuesFitColumns(p: string)
    requires GetFileExtension(p) in AllowedExtensionList
    ensures |GetFileExtension(p)| <= 10
    ensures |CategoryLabel(DetectCategory(p))| <= 20
  {
    UploadsShort(GetFileExtension(p));
    LabelsShort(DetectCategory(p));
  }

  /** No whitelisted extension is longer than four characters. */
  lemma UploadsShort(e: string)
    requires e in AllowedExtensionList
    ensures |e| <= 4
  {
    if e in DocumentUploads {
    } else if e in ImageUploads {
    } else if e in AudioUploads {
    } else if e in VideoUploads {
    } else if e in ArchiveUploads {
    } else if e in CodeUploads {
    } else {
      assert e in MiscUploads;
    }
  }

  /** No category label is longer than fifteen characters. */
  lemma LabelsShort(c: Category)
    ensures |CategoryLabel(c)| <= 15
  {
  }

  // ---------------------------------------------------------------------
  // The stored display name
  // ---------------------------------------------------------------------

  const MaxDisplayName: nat := 100

  /** `File.save`: the base name, cut to 97 characters plus "..." when it is
      longer than 100. */
  function DisplayName(p: string): (r: string)
    ensures |r| <= MaxDisplayName
    ensures '/' !in r
    ensures |Basename(p)| <= MaxDisplayName ==> r == Basename(p)
    ensures |Basename(p)| > MaxDisplayName ==>
      |r| == MaxDisplayName && r[..97] == Basename(p)[..97] && r[97..] == "..."
  {
    var b := Basename(p);
    if |b| > 100 then b[..97] + "..." else b
  }

  /** A stored display name is its own display name. */
  lemma DisplayNameIdempotent(p: string)
    ensures DisplayName(DisplayName(p)) == DisplayName(p)
  {
    var r := DisplayName(p);
    assert LastIndexOf(r, '/') == -1 by { LastIndexOfUnique(r, '/', -1); }
    assert Basename(r) == r;
  }

  // ---------------------------------------------------------------------
  // File.clean
  // ---------------------------------------------------------------------

  const MaxUploadBytes: nat := 80 * 1024 * 1024

  const SizeMessage: string := "File size must be less than 80MB."
  const DescriptionMessage: string := "Description can only contain letters, numbers, and parentheses."

  /** `[a-zA-Z0-9(),."'\s]`. */
  predicate InDescriptionClass(c: char) {
    IsAsciiLetter(c) || IsAsciiDigit(c) || IsSpace(c)
    || c == '(' || c == ')' || c == ',' || c == '.' || c == '"' || c == '\''
  }

  /** `str.capitalize()`: first character upper-case, the rest lower-case. */
  function Capitalize(s: string): (r: string)
    ensures |r| == |s|
    ensures forall i :: 0 <= i < |s| ==> r[i] == if i == 0 then ToUpper(s[0]) else ToLower(s[i])
  {
    if |s| == 0 then "" else [ToUpper(s[0])] + Lower(s[1..])
  }

  /** `File.clean`: the description is stripped and capitalised, the size
      limit is checked, then the description's characters. A missing file is
      not size-checked; an empty description is not pattern-checked. */
  function CleanFile(size: Option<nat>, description: string): (r: Result<string, string>)
    ensures r.Err? && r.error == SizeMessage <==> size.Some? && size.value > MaxUploadBytes
    ensures r.Ok? <==>
      (size.None? || size.value <= MaxUploadBytes)
      && forall i :: 0 <= i < |Strip(description)| ==> InDescriptionClass(Strip(description)[i])
    ensures r.Ok? ==> r.value == Capitalize(Strip(description)) && |r.value| == |Strip(description)|
    ensures r.Err? && r.error != SizeMessage ==> r.error == DescriptionMessage
  {
    var d := Capitalize(Strip(description));
    CapitalizeKeepsClass(Strip(description));
    if size.Some? && size.value > MaxUploadBytes then Err(SizeMessage)
    else if d != "" && !(forall i :: 0 <= i < |d| ==> InDescriptionClass(d[i])) then Err(DescriptionMessage)
    else Ok(d)
  }

  lemma CapitalizeKeepsClass(s: string)
    ensures (forall i :: 0 <= i < |s| ==> InDescriptionClass(Capitalize(s)[i]))
        <==> (forall i :: 0 <= i < |s| ==> InDescriptionClass(s[i]))
  {
    forall i | 0 <= i < |s| ensures InDescriptionClass(Capitalize(s)[i]) <==> InDescriptionClass(s[i]) {
      UpperCharFacts(s[i]);
      LowerCharFacts(s[i]);
    }
  }

  // ---------------------------------------------------------------------
  // The chat icon filter
  // ---------------------------------------------------------------------

  const ImageIcon: string := "image-icon.png"
  const PdfIcon: string := "pdf-icon.png"
  const WordIcon: string := "word-icon.png"
  const DefaultIcon: string := "default-icon.png"

  /** `file_name.split('.')[-1].lower()`: the text after the last dot, or
      the whole name when there is none. */
  function IconExtension(name: string): (r: string)
    ensures '.' !in r && Lower(r) == r
    ensures '.' !in name ==> r == Lower(name)
  {
    AfterLastDot(name);
    Lower(name[LastIndexOf(name, '.') + 1..])
  }

  /** The text after the last dot, lower-cased, holds no dot and is
      lower-case already. */
  lemma AfterLastDot(name: string)
    ensures var k := LastIndexOf(name, '.');
      var r := Lower(name[k + 1..]);
      '.' !in r && Lower(r) == r
  {
    var k := LastIndexOf(name, '.');
    var t := name[k + 1..];
    LowerIdempotent(t);
    forall i | 0 <= i < |t| ensures Lower(t)[i] != '.' {
      LowerCharFacts(t[i]);
    }
  }

  /** `get_file_icon`. */
  function FileIcon(name: string): (r: string)
    ensures r in {ImageIcon, PdfIcon, WordIcon, DefaultIcon}
    ensures r == ImageIcon <==> IconExtension(name) in ["jpg", "png", "gif"]
    ensures r == PdfIcon <==> IconExtension(name) == "pdf"
    ensures r == WordIcon <==> IconExtension(name) in ["doc", "docx"]
  {
    var extension := IconExtension(name);
    if extension in ["jpg", "png", "gif"] then ImageIcon
    else if extension in ["pdf"] then PdfIcon
    else if extension in ["doc", "docx"] then WordIcon
    else DefaultIcon
  }

  /** Lower-casing moves no dot. */
  lemma LastDotOfLower(s: string)
    ensures LastIndexOf(Lower(s), '.') == LastIndexOf(s, '.')
  {
    var k := LastIndexOf(s, '.');
    forall i | k < i < |s| ensures Lower(s)[i] != '.' { LowerCharFacts(s[i]); }
    if k >= 0 { LowerCharFacts(s[k]); }
    LastIndexOfUnique(Lower(s), '.', k);
  }

  /** The icon extension depends on the name only up to case. */
  lemma IconExtensionOfLower(s: string)
    ensures IconExtension(s) == IconExtension(Lower(s))
  {
    LastDotOfLower(s);
    var k := LastIndexOf(s, '.') + 1;
    forall i | 0 <= i < |s| - k ensures IconExtension(s)[i] == IconExtension(Lower(s))[i] {
      LowerCharFacts(s[k + i]);
    }
  }

  /** The filter ignores case: names equal up to case get the same icon,
      "A.PDF" and "a.pdf" among them. */
  lemma FileIconCaseInsensitive(a: string, b: string)
    requires Lower(a) == Lower(b)
    ensures FileIcon(a) == FileIcon(b)
  {
    IconExtensionOfLower(a);
    IconExtensionOfLower(b);
  }

  /** The two extension readings agree whenever the model's one finds an
      extension at all. */
  lemma IconExtensionAgreesWithFileExtension(p: string)
    ensures GetFileExtension(p) == UnknownExtension || GetFileExtension(p) == IconExtension(p)
  {
    var ext := SplitExt(p).1;
    if ext != "" {
      var k := LastIndexOf(p, '.');
      assert ext == p[k..];
      assert ext == "." + p[k + 1..];
      ExtensionOfDotted(p[k + 1..]);
    }
  }

  /** An image or document icon never contradicts the stored category. */
  lemma IconConsistentWithCategory(p: string)
    requires GetFileExtension(p) != UnknownExtension
    ensures FileIcon(p) == ImageIcon ==> DetectCategory(p) == Images
    ensures FileIcon(p) in {PdfIcon, WordIcon} ==> DetectCategory(p) == Documents
  {
    IconExtensionAgreesWithFileExtension(p);
  }

  /** The converse fails: a JPEG image gets the default icon. */
  lemma JpegHasDefaultIcon(dir: string, stem: string)
    requires dir == "" || dir[|dir| - 1] == '/'
    requires '/' !in stem && HasNonDot(stem, 0, |stem|)
    ensures DetectCategory(dir + stem + ".jpeg") == Images
    ensures FileIcon(dir + stem + ".jpeg") == DefaultIcon
  {
    JpegExtensions(dir, stem);
    JpegIsImage();
    JpegIconIsDefault();
  }

  lemma JpegIsImage()
    ensures CategoryOfExtension("jpeg") == Images
  {
    assert "jpeg" in ImgExt;
  }

  lemma JpegIconIsDefault()
    ensures "jpeg" !in ["jpg", "png", "gif"] && "jpeg" != "pdf" && "jpeg" !in ["doc", "docx"]
  {
  }

  lemma JpegExtensions(dir: string, stem: string)
    requires dir == "" || dir[|dir| - 1] == '/'
    requires '/' !in stem && HasNonDot(stem, 0, |stem|)
    ensures GetFileExtension(dir + stem + ".jpeg") == "jpeg"
    ensures IconExtension(dir + stem + ".jpeg") == "jpeg"
  {
    var e := "jpeg";
    var p := dir + stem + "." + e;
    assert p == dir + stem + ".jpeg";
    ExtensionOfJoinedName(dir, stem, e);
    IconExtensionAfterDot(dir + stem, e);
    assert Lower(e) == e;
  }

  /** The icon extension of a name ending in '.' and a dot-free `e` is `e`
      lower-cased. */
  lemma IconExtensionAfterDot(prefix: string, e: string)
    requires '.' !in e
    ensures IconExtension(prefix + "." + e) == Lower(e)
  {
    var p := prefix + "." + e;
    LastIndexOfUnique(p, '.', |prefix|);
    assert p[|prefix| + 1..] == e;
  }
}
