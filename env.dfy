/**
 * The world the crawler runs in.  Everything the original program asks of
 * the filesystem, of the source-text analyser and of the platform's module
 * resolution is a field of `World`, so every operation of the model is a
 * total function of the world it is given.
 */
module Env {
  import opened Wrappers

  type Path = string

  /** The error raised by the specifier extractor on malformed source text. */
  datatype ParseError = ParseError(message: string)

  /**
   * What the module locator reports for a package specifier: a builtin of the
   * platform, a package with its identity and main file, or nothing.
   */
  datatype Verdict = Native | Found(id: string, filename: Path) | NotFound

  datatype World = World(
    // contents of every file that can be read; reading any other path fails
    files: map<Path, string>,
    // the file-exists check used when probing candidate paths
    fileExists: Path -> bool,
    // the specifier extractor: source text to the ordered list of required strings
    detect: string -> Result<seq<string>, ParseError>,
    // the module locator, given (request, requesting id, requesting directory)
    locate: (string, string, Path) -> Verdict,
    // path operations: resolve(p), resolve(dir, request), dirname, basename, relative(from, to)
    resolve: Path -> Path,
    resolveIn: (Path, string) -> Path,
    dirname: Path -> Path,
    basename: Path -> string,
    relative: (Path, Path) -> Path)

  /** Reading a file: its text, or None when the read fails. */
  function Read(w: World, p: Path): (r: Option<string>)
    ensures r.Some? <==> p in w.files
    ensures r.Some? ==> r.value == w.files[p]
  {
    if p in w.files then Some(w.files[p]) else None
  }

  /** Caller options; an option that is not given is None. */
  datatype Options = Options(traverseModules: Option<bool>, absolute: Option<bool>)

  /** The truth value of an optional flag, as `!!flag` gives it: absent means false. */
  function Truthy(flag: Option<bool>): (b: bool)
    ensures b <==> flag == Some(true)
  {
    match flag
    case Some(v) => v
    case None => false
  }
}
