/** `src/git.rs`: adding a generated file to the repository's local exclude
    list (`.git/info/exclude`). The `git` subprocess calls are cut off: whether
    the working directory is in a repository, the repository root, the current
    directory and the exclude file itself are given. Paths are given as their
    components. */
module Git {
  import opened Wrappers
  import opened Text

  /** The comment line written above the first entry the tool adds. */
  const Header: string := "# Added by nais-env"

  /** A path: absolute or relative, and its components in order. A component
      is a file name or `..`; the `.` components Rust's `Path` skips are not
      represented. */
  datatype Path = Path(absolute: bool, parts: seq<string>)

  /** `Path::join` of a relative path onto a directory. */
  function JoinPath(dir: Path, rel: Path): Path {
    Path(dir.absolute, dir.parts + rel.parts)
  }

  /** `Path::strip_prefix`: the components after `base`, when `base` is a
      component-wise prefix of `path` of the same kind. */
  function StripPrefix(path: Path, base: Path): (r: Option<seq<string>>)
    ensures r.Some? <==>
      (path.absolute == base.absolute && |base.parts| <= |path.parts| && path.parts[..|base.parts|] == base.parts)
    ensures r.Some? ==> path.parts == base.parts + r.value
  {
    if path.absolute == base.absolute
       && |base.parts| <= |path.parts| && path.parts[..|base.parts|] == base.parts
    then
      assert path.parts == base.parts + path.parts[|base.parts|..];
      Some(path.parts[|base.parts|..])
    else None
  }

  /** The path as text, components separated by `/`. */
  function Display(parts: seq<string>): string {
    Join(parts, '/')
  }

  /** `get_relative_path_from_repo_root`: a relative file is first joined onto
      the current directory (nothing when that is unknown); the result is the
      rest of the path below the repository root, if it lies below it. */
  function RelativePathFromRepoRoot(repoRoot: Path, cwd: Option<Path>, file: Path): Option<string> {
    var absolute :=
      if file.absolute then Some(file)
      else if cwd.Some? then Some(JoinPath(cwd.value, file))
      else None;
    if absolute.None? then None
    else
      match StripPrefix(absolute.value, repoRoot)
      case Some(rest) => Some(Display(rest))
      case None => None
  }

  /** A file below the root is listed by its components below the root, and
      a relative file counts from the current directory; a file elsewhere has
      no relative path, and neither has a relative file when the current
      directory is unknown. */
  lemma RelativePathSpec(repoRoot: Path, cwd: Path, file: Path, rest: seq<string>)
    ensures file.absolute && file.parts == repoRoot.parts + rest && repoRoot.absolute ==>
      RelativePathFromRepoRoot(repoRoot, Some(cwd), file) == Some(Display(rest))
    ensures (!file.absolute && cwd.parts + file.parts == repoRoot.parts + rest
             && cwd.absolute == repoRoot.absolute) ==>
      RelativePathFromRepoRoot(repoRoot, Some(cwd), file) == Some(Display(rest))
    ensures file.absolute && RelativePathFromRepoRoot(repoRoot, Some(cwd), file).Some? ==>
      && repoRoot.absolute
      && (exists tail :: file.parts == repoRoot.parts + tail
            && RelativePathFromRepoRoot(repoRoot, Some(cwd), file) == Some(Display(tail)))
    ensures !file.absolute && RelativePathFromRepoRoot(repoRoot, Some(cwd), file).Some? ==>
      && cwd.absolute == repoRoot.absolute
      && (exists tail :: cwd.parts + file.parts == repoRoot.parts + tail
            && RelativePathFromRepoRoot(repoRoot, Some(cwd), file) == Some(Display(tail)))
    ensures !file.absolute ==> RelativePathFromRepoRoot(repoRoot, None, file) == None
  {
    if file.absolute && file.parts == repoRoot.parts + rest && repoRoot.absolute {
      assert file.parts[..|repoRoot.parts|] == repoRoot.parts;
      assert file.parts[|repoRoot.parts|..] == rest;
    }
    if !file.absolute && cwd.parts + file.parts == repoRoot.parts + rest && cwd.absolute == repoRoot.absolute {
      var joined := JoinPath(cwd, file);
      assert joined.parts[..|repoRoot.parts|] == repoRoot.parts;
      assert joined.parts[|repoRoot.parts|..] == rest;
    }
    if file.absolute && RelativePathFromRepoRoot(repoRoot, Some(cwd), file).Some? {
      var tail := StripPrefix(file, repoRoot).value;
      assert file.parts == repoRoot.parts + tail;
    }
    if !file.absolute && RelativePathFromRepoRoot(repoRoot, Some(cwd), file).Some? {
      var tail := StripPrefix(JoinPath(cwd, file), repoRoot).value;
      assert cwd.parts + file.parts == repoRoot.parts + tail;
    }
  }

  /** `file_name()` shown as text, `""` when there is none: the last
      component, unless the path is empty or ends in `..`. */
  function FileName(file: Path): string {
    if file.parts == [] || file.parts[|file.parts| - 1] == ".." then ""
    else file.parts[|file.parts| - 1]
  }

  /** The line `add_to_git_exclude` records for a file: its path below the
      repository root, or else its bare file name. */
  function ExcludeEntry(repoRoot: Path, cwd: Option<Path>, file: Path): (e: string)
    ensures RelativePathFromRepoRoot(repoRoot, cwd, file).Some? ==>
      e == RelativePathFromRepoRoot(repoRoot, cwd, file).value
    ensures RelativePathFromRepoRoot(repoRoot, cwd, file).None? ==> e == FileName(file)
  {
    match RelativePathFromRepoRoot(repoRoot, cwd, file)
    case Some(path) => path
    case None => FileName(file)
  }

  /** A file outside the repository root is recorded by its last component. */
  lemma ExcludeEntryFallback(repoRoot: Path, cwd: Path, dir: seq<string>, name: string)
    requires name != ".."
    requires !(|repoRoot.parts| <= |dir| + 1 && (dir + [name])[..|repoRoot.parts|] == repoRoot.parts)
    ensures ExcludeEntry(repoRoot, Some(cwd), Path(true, dir + [name])) == name
  {
    var file := Path(true, dir + [name]);
    assert StripPrefix(file, repoRoot).None?;
    assert file.parts[|file.parts| - 1] == name;
  }

  /** What `add_to_git_exclude` appends, as written: the header line when no
      line is the header yet, then the entry line, each ended by `\n`. */
  function Appended(lines: seq<string>, entry: string): string {
    (if Header in lines then "" else Header + "\n") + entry + "\n"
  }

  /** The exclude file after the update as the program writes it: the text is
      appended directly after the existing content. */
  function ExcludeUpdatedAsWritten(content: string, entry: string): string {
    var lines := Lines(content);
    if entry in lines then content else content + Appended(lines, entry)
  }

  /** A line `h` appended right after a text `c` that has no line ending
      joins the line of `c`. */
  lemma GluedLines(c: string, h: string, rest: string)
    requires '\n' !in c && '\n' !in h && h != [] && h[|h| - 1] != '\r'
    ensures Lines((c + h) + ("\n" + rest))[0] == c + h
  {
    var first := c + h;
    assert '\n' !in first by {
      assert forall i :: 0 <= i < |first| ==> first[i] == if i < |c| then c[i] else h[i - |c|];
    }
    assert StripCR(first) == first by {
      assert first[|first| - 1] == h[|h| - 1];
    }
    LinesCons(first, rest);
  }

  /** The header is one line that `str::lines` reads back as itself. */
  lemma HeaderIsLine()
    ensures Header != [] && '\n' !in Header && Header[|Header| - 1] != '\r'
  {
  }

  /** As written, a one-line file `c` without a final line ending is followed
      directly by the header. */
  lemma AsWrittenAfterOneLine(c: string, entry: string)
    requires Lines(c) == [c] && c != Header && entry != c
    ensures ExcludeUpdatedAsWritten(c, entry) == (c + Header) + ("\n" + (entry + "\n"))
  {
    assert Header !in [c] && entry !in [c];
  }

  /** When the file does not end in a line ending, the appended text is glued
      onto its last line: a one-line file `c` without a final line ending gets
      the first line `c# Added by nais-env`, and the pattern `c` is lost. */
  lemma GluedOntoLastLine(c: string, entry: string)
    requires c != [] && '\n' !in c && c != Header && entry != c
    ensures Lines(c) == [c]
    ensures Lines(ExcludeUpdatedAsWritten(c, entry))[0] == c + Header
  {
    LinesOfUnterminated(c);
    AsWrittenAfterOneLine(c, entry);
    HeaderIsLine();
    GluedLines(c, Header, entry + "\n");
  }

  /** The content, ended by a line ending unless it is empty or has one. */
  function Terminated(content: string): (r: string)
    ensures EndsWithNewline(r)
  {
    if EndsWithNewline(content) then content else content + "\n"
  }

  /** The exclude file after the update, with the line ending the program
      evidently relies on: a missing final line ending is added first. */
  function ExcludeUpdated(content: string, entry: string): string {
    var lines := Lines(content);
    if entry in lines then content
    else Terminated(content) + Appended(lines, entry)
  }

  /** An entry that `str::lines` reads back as itself. */
  predicate IsLine(entry: string) {
    '\n' !in entry && StripCR(entry) == entry
  }

  /** Text whose last line `str::lines` reads back unchanged once it is ended. */
  predicate EndsCleanly(content: string) {
    content == [] || content[|content| - 1] != '\r' || content[|content| - 1] == '\n'
  }

  /** Ending the content changes none of its lines. */
  lemma TerminatedLines(content: string)
    requires EndsCleanly(content)
    ensures Lines(Terminated(content)) == Lines(content)
  {
    if !EndsWithNewline(content) {
      LinesTerminate(content);
    }
  }

  /** The lines after appending the header (when absent) and the entry. */
  lemma AppendedLines(terminated: string, lines: seq<string>, entry: string)
    requires EndsWithNewline(terminated) && IsLine(entry)
    ensures Lines(terminated + Appended(lines, entry))
      == Lines(terminated) + (if Header in lines then [] else [Header]) + [entry]
  {
    if Header in lines {
      assert terminated + Appended(lines, entry) == terminated + (entry + "\n");
      LinesAppendLine(terminated, entry);
    } else {
      var withHeader := terminated + (Header + "\n");
      assert terminated + Appended(lines, entry) == withHeader + (entry + "\n");
      HeaderIsLine();
      LinesAppendLine(terminated, Header);
      LinesAppendLine(withHeader, entry);
    }
  }

  /** An entry already listed leaves the file unchanged; otherwise every
      existing line is kept, the header line follows when no line was the
      header, and the entry becomes the last line. */
  lemma ExcludeUpdatedLines(content: string, entry: string)
    requires IsLine(entry) && EndsCleanly(content)
    ensures entry in Lines(content) ==> ExcludeUpdated(content, entry) == content
    ensures entry !in Lines(content) ==>
      Lines(ExcludeUpdated(content, entry))
        == Lines(content) + (if Header in Lines(content) then [] else [Header]) + [entry]
  {
    var lines := Lines(content);
    if entry !in lines {
      TerminatedLines(content);
      AppendedLines(Terminated(content), lines, entry);
    }
  }

  /** Updating twice with the same entry is updating once. */
  lemma ExcludeUpdatedIdempotent(content: string, entry: string)
    requires IsLine(entry) && EndsCleanly(content)
    ensures ExcludeUpdated(ExcludeUpdated(content, entry), entry) == ExcludeUpdated(content, entry)
  {
    ExcludeUpdatedLines(content, entry);
    var once := ExcludeUpdated(content, entry);
    if entry !in Lines(content) {
      var ls := Lines(once);
      assert ls[|ls| - 1] == entry;
      assert entry in ls;
    }
  }

  /** The header line is written at most once by repeated updates: a file
      holding it keeps exactly its lines plus the new entry. */
  lemma HeaderWrittenOnce(content: string, entry: string)
    requires IsLine(entry) && EndsCleanly(content)
    requires Header in Lines(content) && entry !in Lines(content)
    ensures Lines(ExcludeUpdated(content, entry)) == Lines(content) + [entry]
  {
    ExcludeUpdatedLines(content, entry);
  }

  /** On a file that is empty or ends in a line ending, the update as the
      program writes it is the corrected update. */
  lemma AsWrittenWhenTerminated(content: string, entry: string)
    requires EndsWithNewline(content)
    ensures ExcludeUpdatedAsWritten(content, entry) == ExcludeUpdated(content, entry)
  {
  }

  /** The update as written, on a file that is empty or ends in a line ending:
      an entry already listed leaves the file unchanged; otherwise every
      existing line is kept, the header line follows when no line was the
      header, and the entry becomes the last line. */
  lemma AsWrittenLines(content: string, entry: string)
    requires IsLine(entry) && EndsWithNewline(content)
    ensures entry in Lines(content) ==> ExcludeUpdatedAsWritten(content, entry) == content
    ensures entry !in Lines(content) ==>
      Lines(ExcludeUpdatedAsWritten(content, entry))
        == Lines(content) + (if Header in Lines(content) then [] else [Header]) + [entry]
  {
    AsWrittenWhenTerminated(content, entry);
    ExcludeUpdatedLines(content, entry);
  }

  /** The update as written is idempotent on a file that is empty or ends in
      a line ending. */
  lemma AsWrittenIdempotent(content: string, entry: string)
    requires IsLine(entry) && EndsWithNewline(content)
    ensures ExcludeUpdatedAsWritten(ExcludeUpdatedAsWritten(content, entry), entry)
      == ExcludeUpdatedAsWritten(content, entry)
  {
    AsWrittenWhenTerminated(content, entry);
    ExcludeUpdatedIdempotent(content, entry);
    var once := ExcludeUpdated(content, entry);
    assert EndsWithNewline(once);
    AsWrittenWhenTerminated(once, entry);
  }

  /** The update as written adds the header at most once: on a file that ends
      in a line ending and holds the header, only the entry line is added. */
  lemma AsWrittenHeaderOnce(content: string, entry: string)
    requires IsLine(entry) && EndsWithNewline(content)
    requires Header in Lines(content) && entry !in Lines(content)
    ensures Lines(ExcludeUpdatedAsWritten(content, entry)) == Lines(content) + [entry]
  {
    AsWrittenLines(content, entry);
  }

  /** The lines of a file holding the header and then one unterminated line. */
  lemma HeaderThenLine(a: string)
    requires '\n' !in a && a != []
    ensures Lines(Header + ("\n" + a)) == [Header, a]
  {
    HeaderIsLine();
    LinesCons(Header, a);
    LinesOfUnterminated(a);
  }

  /** The lines of a file holding the header and then one terminated line. */
  lemma HeaderThenTerminatedLine(b: string)
    requires '\n' !in b && (b == [] || b[|b| - 1] != '\r')
    ensures Lines(Header + ("\n" + (b + "\n"))) == [Header, b]
  {
    HeaderIsLine();
    LinesCons(Header, b + "\n");
    LinesOfOneLine(b);
  }

  /** As written, a file that already holds the header and not the entry
      gets just the entry line appended directly after its content. */
  lemma AsWrittenWithHeader(content: string, entry: string)
    requires Header in Lines(content) && entry !in Lines(content)
    ensures ExcludeUpdatedAsWritten(content, entry) == content + (entry + "\n")
  {
    var lines := Lines(content);
    assert Appended(lines, entry) == "" + entry + "\n";
    assert "" + entry + "\n" == entry + "\n";
  }

  /** Text after a line ending, regrouped so that `a` and `b` form one line. */
  lemma GlueRegroup(h: string, a: string, b: string)
    requires '\n' !in a && '\n' !in b && b != [] && b[|b| - 1] != '\r'
    ensures h + ("\n" + a) + (b + "\n") == h + ("\n" + ((a + b) + "\n"))
    ensures '\n' !in a + b && (a + b)[|a + b| - 1] != '\r'
  {
    var g := a + b;
    assert forall i :: 0 <= i < |g| ==> g[i] == if i < |a| then a[i] else b[i - |a|];
    assert g[|g| - 1] == b[|b| - 1];
  }

  /** As written the update is not idempotent: in a file whose last line `a`
      already follows the header but has no line ending, the entry is glued
      onto `a`, so it is never found as a line and a second update appends it
      again. */
  lemma AsWrittenRepeatsEntry(a: string, entry: string)
    requires a != [] && '\n' !in a && IsLine(entry) && entry != [] && entry != Header && entry != a
    ensures var once := ExcludeUpdatedAsWritten(Header + ("\n" + a), entry);
      && once == Header + ("\n" + a) + (entry + "\n")
      && ExcludeUpdatedAsWritten(once, entry) == once + (entry + "\n")
      && ExcludeUpdatedAsWritten(once, entry) != once
  {
    var content := Header + ("\n" + a);
    HeaderThenLine(a);
    assert Header in Lines(content) && entry !in Lines(content);
    AsWrittenWithHeader(content, entry);
    var once := content + (entry + "\n");
    GlueRegroup(Header, a, entry);
    HeaderThenTerminatedLine(a + entry);
    assert |a + entry| > |entry|;
    assert Lines(once) == [Header, a + entry];
    assert Header in Lines(once) && entry !in Lines(once);
    AsWrittenWithHeader(once, entry);
  }

  /** Appending the header and then the entry line to a text appends what
      `Appended` describes. */
  lemma AppendedAssociates(t: string, header: string, entry: string)
    ensures t + header + entry + "\n" == t + (header + entry + "\n")
  {
  }

  /** The exclude file on disk. */
  class ExcludeFile {
    var content: string

    constructor (content: string)
      ensures this.content == content
    {
      this.content := content;
    }
  }

  /** `add_to_git_exclude`. `inRepo` is what `git rev-parse
      --is-inside-work-tree` answered; `exclude` is the exclude file, null
      when git reports none or it does not exist. The header and the entry
      are appended directly after the existing content, as the program
      writes them. */
  method AddToGitExclude(inRepo: bool, exclude: ExcludeFile?, repoRoot: Path, cwd: Option<Path>, file: Path)
    modifies exclude
    ensures exclude != null && inRepo ==>
      exclude.content == ExcludeUpdatedAsWritten(old(exclude.content), ExcludeEntry(repoRoot, cwd, file))
    ensures exclude != null && !inRepo ==> exclude.content == old(exclude.content)
  {
    if !inRepo {
      return;
    }
    if exclude == null {
      return;
    }
    var relativePath := match RelativePathFromRepoRoot(repoRoot, cwd, file)
      case Some(path) => path
      case None => FileName(file);
    assert relativePath == ExcludeEntry(repoRoot, cwd, file);
    ghost var before := exclude.content;
    var lines := Lines(exclude.content);
    if relativePath in lines {
      return;
    }
    ghost var header := if Header in lines then "" else Header + "\n";
    if Header !in lines {
      exclude.content := exclude.content + Header + "\n";
    }
    assert exclude.content == before + header;
    exclude.content := exclude.content + relativePath + "\n";
    AppendedAssociates(before, header, relativePath);
  }
}
