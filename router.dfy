/** `do_GET` (main.py:22-33) with `send_html` and `send_static` (main.py:52-65)
    reduced to what they answer: a status, a content type and the file whose
    bytes are the body. Whether a file exists and which MIME type
    `mimetypes.guess_type` guesses are functions passed in; the file contents
    are not modelled. */
module Router {
  import opened Results

  /** The branch `do_GET` takes. */
  datatype Page = Index | Message | Static(file: string) | NotFound

  datatype Response = Response(status: int, contentType: string, file: string)

  /** Python's `path[1:]`: everything after the first character. */
  function Rest(path: string): string {
    if path == [] then [] else path[1..]
  }

  /** The routing rule: the two fixed pages, else an existing file named by
      the path without its leading character, else the error page. */
  function Route(path: string, fileExists: string -> bool): (p: Page)
    ensures p == Index <==> path == "/"
    ensures p == Message <==> path == "/message"
    ensures p.Static? <==> path != "/" && path != "/message" && fileExists(Rest(path))
    ensures p.Static? ==> p.file == Rest(path)
  {
    if path == "/" then Index
    else if path == "/message" then Message
    else if fileExists(Rest(path)) then Static(Rest(path))
    else NotFound
  }

  /** `mimetypes.guess_type(filename)[0] or "text/plain"`: a missing or empty
      guess falls back to plain text. */
  function ContentType(guess: Option<string>): (t: string)
    ensures t != []
    ensures guess.Some? && guess.value != [] ==> t == guess.value
    ensures !(guess.Some? && guess.value != []) ==> t == "text/plain"
  {
    match guess
    case Some(g) => if g != [] then g else "text/plain"
    case None => "text/plain"
  }

  /** What `do_GET` sends for a path. */
  function DoGet(path: string, fileExists: string -> bool, guessType: string -> Option<string>): (r: Response)
    ensures r.status == 200 || r.status == 404
    ensures r.status == 404 <==> Route(path, fileExists) == NotFound
    ensures r.status == 404 ==> r.file == "error.html" && r.contentType == "text/html"
  {
    match Route(path, fileExists)
    case Index => Response(200, "text/html", "index.html")
    case Message => Response(200, "text/html", "message.html")
    case Static(f) => Response(200, ContentType(guessType(f)), f)
    case NotFound => Response(404, "text/html", "error.html")
  }

  /** The fixed pages: `/` is the index and `/message` the form, both 200,
      whatever files exist. */
  lemma FixedPages(fileExists: string -> bool, guessType: string -> Option<string>)
    ensures DoGet("/", fileExists, guessType) == Response(200, "text/html", "index.html")
    ensures DoGet("/message", fileExists, guessType) == Response(200, "text/html", "message.html")
  {
  }

  /** Every other path names a file: an existing one is served with status 200
      and its guessed type, a missing one gets the error page with 404. */
  lemma OtherPaths(path: string, fileExists: string -> bool, guessType: string -> Option<string>)
    requires path != "/" && path != "/message"
    ensures var r := DoGet(path, fileExists, guessType);
      if fileExists(Rest(path))
      then r == Response(200, ContentType(guessType(Rest(path))), Rest(path))
      else r == Response(404, "text/html", "error.html")
  {
  }

  /** The URL of a file serves that file: `/` + f reaches f when f exists,
      unless it is one of the two fixed routes (`""` and `message`, which the
      fixed pages shadow). */
  lemma ServesFileByUrl(f: string, fileExists: string -> bool, guessType: string -> Option<string>)
    requires fileExists(f) && f != [] && f != "message"
    ensures Route("/" + f, fileExists) == Static(f)
    ensures DoGet("/" + f, fileExists, guessType).status == 200
    ensures DoGet("/" + f, fileExists, guessType).file == f
  {
    assert Rest("/" + f) == f;
  }
}
