/** Persisting one post. The output tree is a value: the set of directories
    that exist and a map from file path to content; a path is the sequence
    of its segments. */
module ArtifactWriter {
  import opened Outcomes
  import opened Strings
  import opened PageParser

  newtype byte = x: int | 0 <= x < 256

  type Path = seq<string>

  datatype Content = Binary(bytes: seq<byte>) | Text(text: string)

  datatype FileSystem = FileSystem(dirs: set<Path>, files: map<Path, Content>)

  /** The root folder of the output tree. */
  const RootFolder := "nogizaka"
  /** The file that receives a post's body text. */
  const BlogFile := "blog.txt"

  /** The directory of one post: root / member / 【date】title. Joining an
      empty member name adds no segment. */
  function SaveDir(member: string, date: string, title: string): Path {
    [RootFolder] + (if member == "" then [] else [member]) + ["\U{3010}" + date + "\U{3011}" + title]
  }

  /** A post's directory has the root folder, then the member's folder unless
      the member name is empty, then the bracketed date followed by the title;
      no segment is empty. */
  lemma SaveDirLayout(member: string, date: string, title: string)
    ensures var p := SaveDir(member, date, title);
            && |p| == (if member == "" then 2 else 3)
            && p[0] == RootFolder && (member != "" ==> p[1] == member)
            && p[|p| - 1] == "\U{3010}" + date + "\U{3011}" + title
            && forall k :: 0 <= k < |p| ==> p[k] != ""
  {
  }

  /** Creating `dir` and all its parents. */
  function MakeDirs(fs: FileSystem, dir: Path): FileSystem {
    fs.(dirs := fs.dirs + set k | 1 <= k <= |dir| :: dir[..k])
  }

  /** Creating a directory keeps every directory and every file there was,
      and adds exactly `dir` and its parents. */
  lemma MakeDirsAdds(fs: FileSystem, dir: Path)
    ensures var r := MakeDirs(fs, dir);
            && r.files == fs.files
            && fs.dirs <= r.dirs
            && (forall k :: 1 <= k <= |dir| ==> dir[..k] in r.dirs)
            && (forall d :: d in r.dirs && d !in fs.dirs ==> 1 <= |d| <= |dir| && d == dir[..|d|])
  {
  }

  /** Creating a directory that exists already changes nothing. */
  lemma MakeDirsIdempotent(fs: FileSystem, dir: Path)
    ensures MakeDirs(MakeDirs(fs, dir), dir) == MakeDirs(fs, dir)
  {
  }

  // ------------------------------------------------------------------ images

  /** The files after an image loop, and the failure that stopped it, if any. */
  datatype ImageWrite = ImageWrite(files: map<Path, Content>, failure: Option<Failure>)

  /** A last path segment that names a directory rather than a file: the
      directory itself (an empty basename), or its `.` or `..` entry.
      Opening such a path for writing raises `IsADirectoryError`. */
  predicate NamesDirectory(name: string) {
    name == "" || name == "." || name == ".."
  }

  /** Each URL in turn: download it, then write its bytes to `dir` / its
      basename. A failing download stops the loop; so does a basename that
      names a directory, which cannot be opened as a file. */
  function WriteImages(files: map<Path, Content>, dir: Path, urls: seq<Url>,
                       downloads: map<Url, seq<byte>>): ImageWrite
    decreases |urls|
  {
    if urls == [] then ImageWrite(files, None)
    else if urls[0] !in downloads then ImageWrite(files, Some(DownloadFailed(urls[0])))
    else if NamesDirectory(Basename(urls[0])) then ImageWrite(files, Some(NotAFile(dir + [Basename(urls[0])])))
    else WriteImages(files[dir + [Basename(urls[0])] := Binary(downloads[urls[0]])], dir, urls[1..], downloads)
  }

  /** `save_images`: create the directory, then download and write the images
      one at a time. */
  method SaveImages(fs: FileSystem, urls: seq<Url>, dir: Path, downloads: map<Url, seq<byte>>)
    returns (fs': FileSystem, failure: Option<Failure>)
    ensures fs' == FileSystem(MakeDirs(fs, dir).dirs, WriteImages(fs.files, dir, urls, downloads).files)
    ensures failure == WriteImages(fs.files, dir, urls, downloads).failure
  {
    fs' := MakeDirs(fs, dir);
    failure := None;
    var i := 0;
    while i < |urls|
      invariant 0 <= i <= |urls|
      invariant fs'.dirs == MakeDirs(fs, dir).dirs
      invariant WriteImages(fs'.files, dir, urls[i..], downloads) == WriteImages(fs.files, dir, urls, downloads)
    {
      var url := urls[i];
      assert urls[i..][0] == url && urls[i..][1..] == urls[i + 1..];
      if url !in downloads {
        failure := Some(DownloadFailed(url));
        return;
      }
      var data := downloads[url];
      var name := Basename(url);
      if NamesDirectory(name) {
        failure := Some(NotAFile(dir + [name]));
        return;
      }
      fs' := fs'.(files := fs'.files[dir + [name] := Binary(data)]);
      i := i + 1;
    }
  }

  /** The image loop stops early exactly when some URL cannot be downloaded
      or has a basename that names a directory. */
  lemma {:induction false} WriteImagesSucceeds(files: map<Path, Content>, dir: Path, urls: seq<Url>,
                                               downloads: map<Url, seq<byte>>)
    ensures WriteImages(files, dir, urls, downloads).failure.None? <==>
            forall u :: u in urls ==> u in downloads && !NamesDirectory(Basename(u))
    decreases |urls|
  {
    if urls != [] && urls[0] in downloads && !NamesDirectory(Basename(urls[0])) {
      var p := dir + [Basename(urls[0])];
      WriteImagesSucceeds(files[p := Binary(downloads[urls[0]])], dir, urls[1..], downloads);
      assert forall u :: u in urls <==> u == urls[0] || u in urls[1..];
    }
  }

  /** The image loop touches no file but `dir` / basename of one of its URLs,
      whether or not it completes. */
  lemma {:induction false} WriteImagesFrame(files: map<Path, Content>, dir: Path, urls: seq<Url>,
                                            downloads: map<Url, seq<byte>>, p: Path)
    requires forall u :: u in urls ==> p != dir + [Basename(u)]
    ensures var out := WriteImages(files, dir, urls, downloads).files;
            (p in out <==> p in files) && (p in files ==> out[p] == files[p])
    decreases |urls|
  {
    if urls != [] && urls[0] in downloads && !NamesDirectory(Basename(urls[0])) {
      var q := dir + [Basename(urls[0])];
      assert urls[0] in urls;
      WriteImagesFrame(files[q := Binary(downloads[urls[0]])], dir, urls[1..], downloads, p);
    }
  }

  /** One step of a complete image loop: its first URL was downloaded and
      written, and the rest of the loop continues from there. */
  lemma WriteImagesStep(files: map<Path, Content>, dir: Path, urls: seq<Url>,
                        downloads: map<Url, seq<byte>>)
    requires urls != [] && WriteImages(files, dir, urls, downloads).failure.None?
    ensures urls[0] in downloads && !NamesDirectory(Basename(urls[0]))
    ensures WriteImages(files, dir, urls, downloads) ==
            WriteImages(files[dir + [Basename(urls[0])] := Binary(downloads[urls[0]])], dir, urls[1..], downloads)
  {
  }

  /** Two files of one directory have one path only if they have one name. */
  lemma FileNameInjective(dir: Path, a: string, b: string)
    requires dir + [a] == dir + [b]
    ensures a == b
  {
    assert (dir + [a])[|dir|] == a;
  }

  /** After a complete image loop, `dir` / basename(u) holds, for every URL,
      the bytes of the LAST URL of the list with that basename: later images
      overwrite earlier ones of the same name. */
  lemma {:induction false} WriteImagesLastWins(files: map<Path, Content>, dir: Path, urls: seq<Url>,
                                               downloads: map<Url, seq<byte>>, i: nat)
    requires WriteImages(files, dir, urls, downloads).failure.None?
    requires i < |urls|
    requires forall j :: i < j < |urls| ==> Basename(urls[j]) != Basename(urls[i])
    ensures urls[i] in downloads
    ensures var out := WriteImages(files, dir, urls, downloads).files;
            dir + [Basename(urls[i])] in out && out[dir + [Basename(urls[i])]] == Binary(downloads[urls[i]])
    decreases |urls|
  {
    WriteImagesStep(files, dir, urls, downloads);
    var rest := urls[1..];
    var p := dir + [Basename(urls[0])];
    var files' := files[p := Binary(downloads[urls[0]])];
    var out := WriteImages(files', dir, rest, downloads).files;
    assert WriteImages(files, dir, urls, downloads).files == out;
    if i == 0 {
      forall u | u in rest ensures p != dir + [Basename(u)] {
        var j :| 0 <= j < |rest| && rest[j] == u;
        assert urls[j + 1] == u;
        if p == dir + [Basename(u)] {
          FileNameInjective(dir, Basename(urls[0]), Basename(u));
        }
      }
      WriteImagesFrame(files', dir, rest, downloads, p);
    } else {
      var name := Basename(urls[i]);
      assert rest[i - 1] == urls[i];
      assert forall j :: i - 1 < j < |rest| ==> Basename(rest[j]) != name by {
        forall j | i - 1 < j < |rest| ensures Basename(rest[j]) != name {
          assert rest[j] == urls[j + 1];
        }
      }
      WriteImagesLastWins(files', dir, rest, downloads, i - 1);
    }
  }

  /** The position of the last URL whose basename is `name`, or -1. */
  function LastNamed(urls: seq<Url>, name: string): (j: int)
    ensures -1 <= j < |urls|
    ensures j >= 0 ==> Basename(urls[j]) == name
    ensures forall l :: j < l < |urls| ==> Basename(urls[l]) != name
  {
    if urls == [] then -1
    else if Basename(urls[|urls| - 1]) == name then |urls| - 1
    else LastNamed(urls[..|urls| - 1], name)
  }

  /** Every URL of a complete image loop leaves a file named after its basename. */
  lemma WriteImagesCoversAll(files: map<Path, Content>, dir: Path, urls: seq<Url>,
                             downloads: map<Url, seq<byte>>, i: nat)
    requires WriteImages(files, dir, urls, downloads).failure.None?
    requires i < |urls|
    ensures dir + [Basename(urls[i])] in WriteImages(files, dir, urls, downloads).files
  {
    var j := LastNamed(urls, Basename(urls[i]));
    WriteImagesLastWins(files, dir, urls, downloads, j);
  }

  // -------------------------------------------------------------------- text

  /** The first candidate that is not empty, or the empty string when all are. */
  function FirstNonEmpty(candidates: seq<string>): (r: string)
    ensures r == "" <==> forall k :: 0 <= k < |candidates| ==> candidates[k] == ""
    ensures forall k :: 0 <= k < |candidates| && candidates[k] != "" ==>
              (forall j :: 0 <= j < k ==> candidates[j] == "") ==> r == candidates[k]
  {
    if candidates == [] then ""
    else if candidates[0] != "" then candidates[0]
    else
      assert forall k :: 1 <= k < |candidates| ==> candidates[k] == candidates[1..][k - 1];
      FirstNonEmpty(candidates[1..])
  }

  /** The text of a body container: the newline-joined `div dir="auto"` texts,
      else the newline-joined `div` texts, else the newline-joined paragraph
      texts, whichever first is not empty. */
  function BlogText(body: Body): string {
    FirstNonEmpty([JoinLines(body.autoDivs), JoinLines(body.divs), JoinLines(body.paragraphs)])
  }

  /** The body text is empty exactly when each strategy finds no block or a
      single empty one; two empty `dir="auto"` blocks already give "\n". */
  lemma BlogTextEmpty(body: Body)
    ensures BlogText(body) == "" <==>
            (body.autoDivs == [] || body.autoDivs == [""]) &&
            (body.divs == [] || body.divs == [""]) &&
            (body.paragraphs == [] || body.paragraphs == [""])
  {
    var c := [JoinLines(body.autoDivs), JoinLines(body.divs), JoinLines(body.paragraphs)];
    assert BlogText(body) == "" <==> c[0] == "" && c[1] == "" && c[2] == "";
  }

  /** A body whose text lies only in paragraphs yields the paragraph text. */
  lemma BlogTextFromParagraphs(body: Body)
    requires body.autoDivs == [] && body.divs == []
    ensures BlogText(body) == JoinLines(body.paragraphs)
  {
    var c := [JoinLines(body.autoDivs), JoinLines(body.divs), JoinLines(body.paragraphs)];
    assert c[0] == "" && c[1] == "";
    if c[2] == "" {
      assert forall k :: 0 <= k < |c| ==> c[k] == "";
    }
  }

  /** Writing `blog.txt`: nothing when the body container is absent, otherwise
      the body text, replacing any earlier `blog.txt` of that directory. */
  function WithBlogText(fs: FileSystem, body: Option<Body>, dir: Path): FileSystem {
    match body
    case None => fs
    case Some(b) => fs.(files := fs.files[dir + [BlogFile] := Text(BlogText(b))])
  }

  /** Without a body container nothing changes; with one, `blog.txt` holds its
      text (empty or not); no other entry and no directory changes. */
  lemma WithBlogTextWrites(fs: FileSystem, body: Option<Body>, dir: Path)
    ensures var r := WithBlogText(fs, body, dir);
            && r.dirs == fs.dirs
            && (body.None? ==> r == fs)
            && (body.Some? ==> dir + [BlogFile] in r.files && r.files[dir + [BlogFile]] == Text(BlogText(body.value)))
            && forall p :: p != dir + [BlogFile] ==>
                 (p in r.files <==> p in fs.files) && (p in fs.files ==> r.files[p] == fs.files[p])
  {
  }

  /** `save_blog_text`: try the three extraction strategies in order, then
      write the text (possibly empty) when the container is there. */
  method SaveBlogText(fs: FileSystem, body: Option<Body>, dir: Path) returns (fs': FileSystem)
    ensures fs' == WithBlogText(fs, body, dir)
  {
    if body.None? {
      return fs;
    }
    var b := body.value;
    var text := JoinLines(b.autoDivs);
    if |text| == 0 {
      text := JoinLines(b.divs);
    }
    if |text| == 0 {
      text := JoinLines(b.paragraphs);
    }
    var c := [JoinLines(b.autoDivs), JoinLines(b.divs), JoinLines(b.paragraphs)];
    assert text == FirstNonEmpty(c) by {
      if c[0] != "" {
      } else if c[1] != "" {
        assert c[0] == "";
      } else if c[2] != "" {
        assert c[0] == "" && c[1] == "";
      } else {
        assert forall k :: 0 <= k < |c| ==> c[k] == "";
      }
    }
    fs' := fs.(files := fs.files[dir + [BlogFile] := Text(text)]);
  }
}
