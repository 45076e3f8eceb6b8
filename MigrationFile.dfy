/**
 * `MigrationFile`: a migration file read from disk. The file system is a
 * map from each existing path to its contents, or to nothing when the path
 * exists but cannot be read as text; SHA-256 and the YAML decoder are
 * passed in.
 */
module MigrationFiles {
  import opened Wrappers
  import opened Text
  import opened StringExtensions

  datatype MigrationFile = MigrationFile(
    file: string,
    version: int,
    description: string,
    contents: string,
    hash: string)

  /**
   * `Unreadable` stands for the error `String(contentsOfFile:)` throws for a
   * path that exists but cannot be read as text (a directory, a file that is
   * not valid text, one without read permission).
   */
  datatype MigrationFileError = FileNotFound(path: string) | FileNameNotDetected(path: string) | Unreadable(path: string)

  /** Every existing path, with its contents when it can be read as text. */
  type FileSystem = map<string, Option<string>>

  /** SHA-256 of the contents, as a hex string. */
  type Hasher = string -> string

  function NonEmpty(parts: seq<string>): (r: seq<string>)
    ensures forall k :: 0 <= k < |r| ==> r[k] != [] && r[k] in parts
  {
    if parts == [] then []
    else if parts[0] == [] then NonEmpty(parts[1..])
    else [parts[0]] + NonEmpty(parts[1..])
  }

  /** `split(separator: "/")`: the pieces between slashes, empty ones omitted. */
  function PathComponents(path: string): seq<string> {
    NonEmpty(Components(path, "/"))
  }

  /** The file name: the last piece of the path, if any. */
  function LastPathComponent(path: string): Option<string> {
    var pieces := PathComponents(path);
    if pieces == [] then None else Some(pieces[|pieces| - 1])
  }

  /** `MigrationFile.from(path:version:fileNameDescription:)`. */
  function LoadMigrationFile(
    path: string, version: int, fileNameDescription: string,
    fs: FileSystem, decode: Decoder, sha256: Hasher): Result<MigrationFile, MigrationFileError>
  {
    if path !in fs then Failure(FileNotFound(path))
    else match LastPathComponent(path)
      case None => Failure(FileNameNotDetected(path))
      case Some(file) =>
        match fs[path]
        case None => Failure(Unreadable(path))
        case Some(contents) =>
          var metadata := InternalMetadataOf(contents, decode);
          var description :=
            if metadata.Some? && metadata.value.description.Some? then metadata.value.description.value
            else fileNameDescription;
          Success(MigrationFile(file, version, description, contents, sha256(contents)))
  }

  // ----- File names -----

  lemma {:induction false} NonEmptyAppend(a: seq<string>, b: seq<string>)
    ensures NonEmpty(a + b) == NonEmpty(a) + NonEmpty(b)
  {
    if a == [] {
      assert a + b == b;
    } else {
      assert (a + b)[0] == a[0];
      assert (a + b)[1..] == a[1..] + b;
      NonEmptyAppend(a[1..], b);
    }
  }

  lemma FirstOccurrence(a: string, c: char) returns (i: nat)
    requires c in a
    ensures i < |a| && a[i] == c && c !in a[..i]
  {
    var j :| 0 <= j < |a| && a[j] == c;
    MatchesChar(a, c, j);
    i := IndexOf(a, [c]).value;
    MatchesChar(a, c, i);
    forall k | 0 <= k < i ensures a[..i][k] != c {
      MatchesChar(a, c, k);
    }
  }

  /** With a one-character separator, splitting `a + [c] + b` splits `a` and `b` separately. */
  lemma {:induction false} ComponentsAtChar(a: string, c: char, b: string)
    ensures Components(a + [c] + b, [c]) == Components(a, [c]) + Components(b, [c])
    decreases |a|
  {
    var s := a + [c] + b;
    if c in a {
      var i := FirstOccurrence(a, c);
      assert s[i] == c && s[..i] == a[..i];
      IndexOfChar(s, c, i);
      IndexOfChar(a, c, i);
      assert s[i + 1..] == a[i + 1..] + [c] + b;
      ComponentsAtChar(a[i + 1..], c, b);
    } else {
      assert s[|a|] == c;
      assert s[..|a|] == a;
      IndexOfChar(s, c, |a|);
      IndexOfCharAbsent(a, c);
      assert s[|a| + 1..] == b;
    }
  }

  /** The engine's paths are `directory + "/" + name`: the file name detected is `name`. */
  lemma FileNameOfJoinedPath(directory: string, name: string)
    requires name != [] && '/' !in name
    ensures LastPathComponent(directory + "/" + name) == Some(name)
  {
    ComponentsAtChar(directory, '/', name);
    IndexOfCharAbsent(name, '/');
    NonEmptyAppend(Components(directory, "/"), [name]);
  }

  lemma {:induction false} NonEmptyOfSlashes(path: string)
    ensures (forall k :: 0 <= k < |path| ==> path[k] == '/') <==> PathComponents(path) == []
    decreases |path|
  {
    if '/' in path {
      var i := FirstOccurrence(path, '/');
      var a, b := path[..i], path[i + 1..];
      assert path == a + ['/'] + b;
      ComponentsAtChar(a, '/', b);
      IndexOfCharAbsent(a, '/');
      NonEmptyAppend([a], Components(b, "/"));
      NonEmptyOfSlashes(b);
      if forall k :: 0 <= k < |path| ==> path[k] == '/' {
        forall k | 0 <= k < |b| ensures b[k] == '/' {
          assert b[k] == path[i + 1 + k];
        }
      }
      if a == [] && forall k :: 0 <= k < |b| ==> b[k] == '/' {
        forall k | 0 <= k < |path| ensures path[k] == '/' {
          if k > 0 {
            assert path[k] == b[k - 1];
          }
        }
      }
    } else {
      IndexOfCharAbsent(path, '/');
      assert Components(path, "/") == [path];
      assert [path][1..] == [];
      if path != [] {
        assert path[0] in path && path[0] != '/';
        assert NonEmpty([path]) == [path] + NonEmpty([]);
        assert PathComponents(path) == [path];
      } else {
        assert NonEmpty([path]) == NonEmpty([]);
      }
    }
  }

  /** A detected file name is non-empty and holds no `/`; none is detected only when the path is all slashes. */
  lemma LastPathComponentSound(path: string)
    ensures LastPathComponent(path).Some? ==> LastPathComponent(path).value != [] && '/' !in LastPathComponent(path).value
    ensures LastPathComponent(path).None? <==> forall k :: 0 <= k < |path| ==> path[k] == '/'
  {
    var pieces := PathComponents(path);
    if pieces != [] {
      var f := pieces[|pieces| - 1];
      assert f in Components(path, "/");
      var k :| 0 <= k < |Components(path, "/")| && Components(path, "/")[k] == f;
      ComponentsAvoidSeparator(path, "/", k);
      ContainsChar(f, '/');
    }
    NonEmptyOfSlashes(path);
  }

  // ----- Loading -----

  /**
   * Loading fails exactly when nothing is at the path (checked first), the
   * path names no file (it is all slashes), or what is there cannot be read
   * (checked last).
   */
  lemma LoadMigrationFileFailures(
    path: string, version: int, fileNameDescription: string,
    fs: FileSystem, decode: Decoder, sha256: Hasher)
    ensures var r := LoadMigrationFile(path, version, fileNameDescription, fs, decode, sha256);
      && (path !in fs <==> r == Failure(FileNotFound(path)))
      && (path in fs && (forall k :: 0 <= k < |path| ==> path[k] == '/') <==> r == Failure(FileNameNotDetected(path)))
      && (path in fs && (exists k :: 0 <= k < |path| && path[k] != '/') && fs[path].None? <==>
          r == Failure(Unreadable(path)))
      && (r.Success? <==> path in fs && (exists k :: 0 <= k < |path| && path[k] != '/') && fs[path].Some?)
  {
    LastPathComponentSound(path);
  }

  /**
   * A loaded file carries the file's contents and their hash, the given
   * version, the last piece of the path as its name, and the embedded
   * description when the metadata has one, the file-name description
   * otherwise.
   */
  lemma LoadMigrationFileSound(
    path: string, version: int, fileNameDescription: string,
    fs: FileSystem, decode: Decoder, sha256: Hasher, m: MigrationFile)
    requires LoadMigrationFile(path, version, fileNameDescription, fs, decode, sha256) == Success(m)
    ensures path in fs && fs[path] == Some(m.contents) && m.hash == sha256(m.contents)
    ensures m.version == version
    ensures LastPathComponent(path) == Some(m.file) && m.file != [] && '/' !in m.file
    ensures var metadata := InternalMetadataOf(m.contents, decode);
      m.description == if metadata.Some? && metadata.value.description.Some?
        then metadata.value.description.value else fileNameDescription
  {
    LastPathComponentSound(path);
  }

  /** A readable file found as `name` in `directory` loads under that name. */
  lemma LoadListedFile(
    directory: string, name: string, version: int, fileNameDescription: string,
    fs: FileSystem, decode: Decoder, sha256: Hasher)
    requires name != [] && '/' !in name
    requires directory + "/" + name in fs && fs[directory + "/" + name].Some?
    ensures var r := LoadMigrationFile(directory + "/" + name, version, fileNameDescription, fs, decode, sha256);
      r.Success? && r.value.file == name
  {
    FileNameOfJoinedPath(directory, name);
  }
}
