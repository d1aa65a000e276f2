/**
 * The source of a document: its title, its kind and its path, derived from where
 * the file lies (`<folder>/<title>.<ext>`, the folder naming the kind in the plural).
 *
 * Paths are read as POSIX paths: components are separated by `/`, and empty and
 * `.` components are dropped, as `pathlib.PurePosixPath` drops them.
 */
module Sources {
  import opened Wrappers
  import opened Strings

  /** `SourceType`: a string enumeration. */
  datatype SourceType = Article | Book | Conference | Lecture | Letter | Other | Words

  /** The string value of each member. */
  function TypeValue(t: SourceType): string {
    match t
    case Article => "article"
    case Book => "book"
    case Conference => "conference"
    case Lecture => "lecture"
    case Letter => "letter"
    case Other => "other"
    case Words => "words"
  }

  /** `SourceType(value)`: the member with that value; Python raises `ValueError` for any other. */
  function ParseSourceType(value: string): (r: Option<SourceType>)
    ensures r.Some? ==> TypeValue(r.value) == value
  {
    if value == "article" then Some(Article)
    else if value == "book" then Some(Book)
    else if value == "conference" then Some(Conference)
    else if value == "lecture" then Some(Lecture)
    else if value == "letter" then Some(Letter)
    else if value == "other" then Some(Other)
    else if value == "words" then Some(Words)
    else None
  }

  /** Every member is found back from its value. */
  lemma ParseTypeValue(t: SourceType)
    ensures ParseSourceType(TypeValue(t)) == Some(t)
  {
  }

  datatype Source = Source(title: string, kind: SourceType, path: string)

  /** The error `from_path` raises when the folder names no source type. */
  datatype SourceError = InvalidSourceType(value: string)

  // ---------------------------------------------------------------------------
  // Paths
  // ---------------------------------------------------------------------------

  /** The path split at `/`, the current piece being `cur`; empty and `.` pieces are dropped. */
  function SplitPath(path: string, cur: string): (parts: seq<string>)
    requires '/' !in cur
    ensures forall k :: 0 <= k < |parts| ==> parts[k] != "" && parts[k] != "." && '/' !in parts[k]
    decreases |path|
  {
    if path == [] then Piece(cur)
    else if path[0] == '/' then Piece(cur) + SplitPath(path[1..], "")
    else SplitPath(path[1..], cur + [path[0]])
  }

  function Piece(cur: string): seq<string> {
    if cur == "" || cur == "." then [] else [cur]
  }

  /** The components of a path, in order. */
  function Parts(path: string): seq<string> {
    SplitPath(path, "")
  }

  /** `Path(path).name`: the last component, or `""` when there is none. */
  function BaseName(path: string): string {
    var parts := Parts(path);
    if parts == [] then "" else parts[|parts| - 1]
  }

  /** `Path(path).parent.name`: the component before the last, or `""` when there is none. */
  function ParentName(path: string): string {
    var parts := Parts(path);
    if |parts| < 2 then "" else parts[|parts| - 2]
  }

  /** Index of the last `.` in `name`, or -1 (`str.rfind`). */
  function LastDot(name: string): (i: int)
    ensures -1 <= i < |name|
    ensures i >= 0 ==> name[i] == '.'
    ensures forall j :: i < j < |name| ==> name[j] != '.'
    decreases |name|
  {
    if name == [] then -1
    else if name[|name| - 1] == '.' then |name| - 1
    else LastDot(name[..|name| - 1])
  }

  /** `PurePath.stem`: the name without its final suffix; a leading or trailing dot is no suffix. */
  function Stem(name: string): string {
    var i := LastDot(name);
    if 0 < i < |name| - 1 then name[..i] else name
  }

  /** `PurePath.suffix`. */
  function Suffix(name: string): string {
    var i := LastDot(name);
    if 0 < i < |name| - 1 then name[i..] else ""
  }

  /** The stem and the suffix make up the name, and the suffix is a dot and dot-free characters. */
  lemma StemSuffix(name: string)
    ensures Stem(name) + Suffix(name) == name
    ensures Suffix(name) == "" || (|Suffix(name)| >= 2 && Suffix(name)[0] == '.' && '.' !in Suffix(name)[1..])
    ensures Suffix(name) != "" ==> Stem(name) != ""
  {
    var i := LastDot(name);
    if 0 < i < |name| - 1 {
      assert name[..i] + name[i..] == name;
      forall j | 0 <= j < |name[i..][1..]|
        ensures name[i..][1..][j] != '.'
      {
        assert name[i..][1..][j] == name[i + 1 + j];
      }
    }
  }

  // ---------------------------------------------------------------------------
  // Source.from_path and Source.__str__
  // ---------------------------------------------------------------------------

  /** The value looked up for a folder name: lower-cased, trailing `s` stripped, except `words`. */
  function TypeKey(folder: string): (key: string)
    ensures var low := Lower(folder); key == low || (low != "words" && key == TrimRight(low, IsLowerS))
  {
    var low := Lower(folder);
    if low != "words" then TrimRight(low, IsLowerS) else low
  }

  predicate IsLowerS(c: char) {
    c == 's'
  }

  /** `Source.from_path`. */
  function FromPath(path: string): (r: Result<Source, SourceError>)
    ensures r.Success? ==> r.value.path == path && r.value.title == Stem(BaseName(path))
    ensures r.Success? <==> ParseSourceType(TypeKey(ParentName(path))).Some?
    ensures r.Success? ==> TypeValue(r.value.kind) == TypeKey(ParentName(path))
  {
    var key := TypeKey(ParentName(path));
    match ParseSourceType(key)
    case Some(t) => Success(Source(Stem(BaseName(path)), t, path))
    case None => Failure(InvalidSourceType(key))
  }

  /** `str.title()` of each member's value: the value with its first letter upper-cased. */
  function TypeTitle(t: SourceType): string {
    match t
    case Article => "Article"
    case Book => "Book"
    case Conference => "Conference"
    case Lecture => "Lecture"
    case Letter => "Letter"
    case Other => "Other"
    case Words => "Words"
  }

  /** `Source.__str__`: the title-cased kind, a space and the repr of the title. */
  function ToString(s: Source): string {
    TypeTitle(s.kind) + " " + Repr(s.title)
  }

  /** Reads the kind back from the rendered form: the word before the first space. */
  function KindOfLabel(shown: string): Option<SourceType> {
    var n := FirstSpace(shown);
    if n == |shown| then None else ParseTitle(shown[..n])
  }

  /** Index of the first space, or the length. */
  function FirstSpace(s: string): (n: nat)
    ensures n <= |s| && (n < |s| ==> s[n] == ' ') && forall j :: 0 <= j < n ==> s[j] != ' '
    decreases |s|
  {
    if s == [] then 0 else if s[0] == ' ' then 0 else 1 + FirstSpace(s[1..])
  }

  /** The member whose title-cased value is `w`. */
  function ParseTitle(w: string): Option<SourceType> {
    if w == "Article" then Some(Article)
    else if w == "Book" then Some(Book)
    else if w == "Conference" then Some(Conference)
    else if w == "Lecture" then Some(Lecture)
    else if w == "Letter" then Some(Letter)
    else if w == "Other" then Some(Other)
    else if w == "Words" then Some(Words)
    else None
  }

  /** The title-cased value is the value with its first letter upper-cased. */
  lemma TypeTitleCapitalises(t: SourceType)
    ensures var v, w := TypeValue(t), TypeTitle(t);
      |w| == |v| && w[1..] == v[1..] && 'a' <= v[0] <= 'z' && w[0] as int == v[0] as int - 32
  {
  }

  /** The kind is recoverable from `str(source)`. */
  lemma KindOfToString(s: Source)
    ensures KindOfLabel(ToString(s)) == Some(s.kind)
  {
    var rest := " " + Repr(s.title);
    assert ToString(s) == TypeTitle(s.kind) + rest;
    KindOfShown(s.kind, rest);
  }

  lemma KindOfShown(t: SourceType, rest: string)
    requires rest != [] && rest[0] == ' '
    ensures KindOfLabel(TypeTitle(t) + rest) == Some(t)
  {
    var w := TypeTitle(t);
    KindWord(t);
    FirstSpaceOf(w, rest);
    assert (w + rest)[..|w|] == w;
  }

  lemma FirstSpaceOf(w: string, rest: string)
    requires ' ' !in w && rest != [] && rest[0] == ' '
    ensures FirstSpace(w + rest) == |w|
  {
    assert (w + rest)[|w|] == ' ';
  }

  /** `str(source)` is a single line. */
  lemma ToStringNoNewline(s: Source)
    ensures '\n' !in ToString(s)
  {
    ReprNoNewline(s.title);
    KindWord(s.kind);
    assert ToString(s) == TypeTitle(s.kind) + " " + Repr(s.title);
  }

  /** The title-cased kind is one word on one line, and names its member. */
  lemma KindWord(t: SourceType)
    ensures var w := TypeTitle(t); ' ' !in w && '\n' !in w && ParseTitle(w) == Some(t)
  {
    match t
    case Article =>
    case Book =>
    case Conference =>
    case Lecture =>
    case Letter =>
    case Other =>
    case Words =>
  }

  // ---------------------------------------------------------------------------
  // Folder names
  // ---------------------------------------------------------------------------

  /** A kind's folder in the plural, in any ASCII case, names that kind (`words` stays whole). */
  lemma PluralFolder(t: SourceType)
    ensures t != Words ==> TypeKey(TypeValue(t) + "s") == TypeValue(t)
    ensures TypeKey(TypeValue(t)) == TypeValue(t) || (t == Words && TypeKey("words") == "words")
  {
    var v := TypeValue(t);
    LowerOfLower(v + "s");
    LowerOfLower(v);
    if t != Words {
      assert TrimRight(v + "s", IsLowerS) == TrimRight(v, IsLowerS);
    }
  }

  lemma LowerOfLower(s: string)
    requires forall i :: 0 <= i < |s| ==> !('A' <= s[i] <= 'Z')
    ensures Lower(s) == s
  {
  }

  /** A path component: non-empty, not `.`, without `/`. */
  predicate IsComponent(w: string) {
    w != "" && w != "." && '/' !in w
  }

  lemma {:induction false} SplitPathWord(w: string, cur: string)
    requires '/' !in w && '/' !in cur
    ensures SplitPath(w, cur) == Piece(cur + w)
    decreases |w|
  {
    if w != [] {
      assert (cur + [w[0]]) + w[1..] == cur + w;
      SplitPathWord(w[1..], cur + [w[0]]);
    } else {
      assert cur + w == cur;
    }
  }

  lemma {:induction false} SplitPathJoin(x: string, y: string, cur: string)
    requires '/' !in cur
    ensures SplitPath(x + "/" + y, cur) == SplitPath(x, cur) + SplitPath(y, "")
    decreases |x|
  {
    if x == [] {
      assert x + "/" + y == "/" + y;
      assert ("/" + y)[1..] == y;
    } else {
      assert (x + "/" + y)[1..] == x[1..] + "/" + y;
      assert (x + "/" + y)[0] == x[0];
      if x[0] == '/' {
        SplitPathJoin(x[1..], y, "");
      } else {
        SplitPathJoin(x[1..], y, cur + [x[0]]);
      }
    }
  }

  /** In `<dir>/<folder>/<file>`, the folder is the parent's name and the file is the name. */
  lemma FolderAndFile(dir: string, folder: string, file: string)
    requires IsComponent(folder) && IsComponent(file)
    ensures ParentName(dir + "/" + folder + "/" + file) == folder
    ensures BaseName(dir + "/" + folder + "/" + file) == file
  {
    var ps := Parts(dir + "/" + folder + "/" + file);
    assert ps == Parts(dir) + [folder] + [file] by {
      PartsOfJoin(dir, folder, file);
    }
    assert |ps| >= 2 && ps[|ps| - 1] == file && ps[|ps| - 2] == folder;
  }

  lemma PartsOfJoin(dir: string, folder: string, file: string)
    requires IsComponent(folder) && IsComponent(file)
    ensures Parts(dir + "/" + folder + "/" + file) == Parts(dir) + [folder] + [file]
  {
    assert dir + "/" + folder + "/" + file == (dir + "/" + folder) + "/" + file;
    SplitPathJoin(dir + "/" + folder, file, "");
    SplitPathJoin(dir, folder, "");
    SplitPathWord(folder, "");
    SplitPathWord(file, "");
    assert "" + folder == folder && "" + file == file;
  }

  /** `from_path` on `<dir>/<folder>/<file>`: the kind named by the folder, the file's stem as title. */
  lemma FromFolder(dir: string, folder: string, file: string, t: SourceType)
    requires IsComponent(folder) && IsComponent(file) && TypeKey(folder) == TypeValue(t)
    ensures FromPath(dir + "/" + folder + "/" + file) == Success(Source(Stem(file), t, dir + "/" + folder + "/" + file))
  {
    FolderAndFile(dir, folder, file);
    ParseTypeValue(t);
  }

  /** The folder names used by the repository's layout. */
  lemma FolderNames()
    ensures TypeKey("books") == "book" && TypeKey("Letters") == "letter"
    ensures TypeKey("article") == "article" && TypeKey("words") == "words"
    ensures TypeKey("lecturess") == "lecture"
  {
    PluralNames();
    SingularNames();
    DoubledSuffixName();
  }

  lemma PluralNames()
    ensures TypeKey("books") == "book" && TypeKey("Letters") == "letter"
  {
    assert Lower("books") == "books";
    assert Lower("Letters") == "letters";
  }

  lemma SingularNames()
    ensures TypeKey("article") == "article" && TypeKey("words") == "words"
  {
    assert Lower("article") == "article";
    assert Lower("words") == "words";
  }

  lemma DoubledSuffixName()
    ensures TypeKey("lecturess") == "lecture"
  {
    assert Lower("lecturess") == "lecturess";
    assert "lecturess"[..8] == "lectures" && "lectures"[..7] == "lecture";
    assert TrimRight("lecturess", IsLowerS) == TrimRight("lecture", IsLowerS);
  }

  /** There is no fallback to `other`: an unknown folder name raises. */
  lemma UnknownFolderFails(dir: string, file: string)
    requires IsComponent(file)
    ensures FromPath(dir + "/misc/" + file) == Failure(InvalidSourceType("misc"))
    ensures FromPath(dir + "/word/" + file).Failure?
  {
    assert dir + "/misc/" + file == dir + "/" + "misc" + "/" + file;
    assert dir + "/word/" + file == dir + "/" + "word" + "/" + file;
    FolderAndFile(dir, "misc", file);
    FolderAndFile(dir, "word", file);
    assert Lower("misc") == "misc";
    assert Lower("word") == "word";
  }

  /** A file outside any folder has no type to look up. */
  lemma NoFolderFails(file: string)
    requires IsComponent(file)
    ensures FromPath(file) == Failure(InvalidSourceType(""))
  {
    SplitPathWord(file, "");
    assert "" + file == file;
  }
}
