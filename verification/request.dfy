/** The request parser: the first line of the assembled request is cut into
    method, path and version, the path becomes a relative filesystem path,
    and an extension is taken from that path and mapped to a content class. */
module Request {
  import opened Outcome
  import opened CStrings
  import opened Inflight

  /** The separators of the request line's tokens. */
  const Blanks: set<char> := {' ', '\t', '\r', '\n'}

  /** The separator of the extension loop. */
  const Dots: set<char> := {'.'}

  /** The coarse content class (`mime` in the source). */
  datatype Mime = Text | Image | Video

  /** An `http_req_t`: the method (`verb`), the resolved filesystem path, the
      extension and its class. */
  datatype Request = Request(verb: string, path: string, ext: string, mime: Mime)

  /** The places where the source's behaviour is fatal or undefined, each
      turned into an error value. */
  datatype ParseError =
    | NoRequestLine  // no non-empty line: the NULL head is dereferenced
    | NoMethod       // the first line has no token: `method` is read uninitialised
    | TooManyTokens  // a fourth token: the source exits the process
    | NoExtension    // the resolved path is only dots: `ext` is read uninitialised

  /** The two tokens of the request line that are used. */
  datatype RequestLine = RequestLine(verb: string, target: string)

  /** The tokenising loop of `http_inflight_parse`: token 0 is the method,
      token 1 the target (empty when absent), token 2 is ignored and a
      fourth token is fatal. */
  function Tokenise(line: string): (r: Result<RequestLine, ParseError>)
    ensures r.Ok? ==> r.value.verb != [] && NoneIn(r.value.verb, Blanks)
    ensures r.Ok? ==> NoneIn(r.value.target, Blanks)
    ensures r == Err(NoMethod) <==> AllIn(line, Blanks)
    ensures r.Err? ==> r.error == NoMethod || r.error == TooManyTokens
    ensures var t := Segments(line, Blanks);
            r == (if |t| > 3 then Err(TooManyTokens)
                  else if t == [] then Err(NoMethod)
                  else Ok(RequestLine(t[0], if |t| >= 2 then t[1] else "")))
  {
    SplitIsSegments(line, Blanks);
    var tokens := Split(line, Blanks);
    if |tokens| > 3 then Err(TooManyTokens)
    else if |tokens| == 0 then Err(NoMethod)
    else Ok(RequestLine(tokens[0], if |tokens| >= 2 then tokens[1] else ""))
  }

  /** A non-empty token that a request line can carry. */
  predicate Word(w: string) {
    w != [] && NoneIn(w, Blanks)
  }

  /** Method, target and version separated by single spaces are the three
      tokens of the line. */
  lemma SplitRequestLine(m: string, p: string, v: string)
    requires Word(m) && Word(p) && Word(v)
    ensures Split(m + " " + p + " " + v, Blanks) == [m, p, v]
    ensures Split(m + " " + p, Blanks) == [m, p]
  {
    SplitWord(m, Blanks);
    SplitWord(p, Blanks);
    SplitWord(v, Blanks);
    SplitAppend(m, ' ', p, Blanks);
    assert m + " " + p == m + [' '] + p;
    SplitAppend(p, ' ', v, Blanks);
    SplitAppend(m, ' ', p + " " + v, Blanks);
    assert m + " " + p + " " + v == m + [' '] + (p + [' '] + v);
  }

  /** Method, target and version separated by single spaces come back as
      method and target; so do method and target alone, and a method alone
      comes back with an empty target. */
  lemma TokeniseRoundTrip(m: string, p: string, v: string)
    requires Word(m) && Word(p) && Word(v)
    ensures Tokenise(m + " " + p + " " + v) == Ok(RequestLine(m, p))
    ensures Tokenise(m + " " + p) == Ok(RequestLine(m, p))
    ensures Tokenise(m) == Ok(RequestLine(m, ""))
  {
    SplitRequestLine(m, p, v);
    SplitWord(m, Blanks);
  }

  /** Any fourth token is rejected. */
  lemma FourthTokenRejected(m: string, p: string, v: string, x: string)
    requires Word(m) && Word(p) && Word(v) && Word(x)
    ensures Tokenise(m + " " + p + " " + v + " " + x) == Err(TooManyTokens)
  {
    SplitRequestLine(m, p, v);
    SplitWord(x, Blanks);
    SplitAppend(m + " " + p + " " + v, ' ', x, Blanks);
    assert m + " " + p + " " + v + " " + x == (m + " " + p + " " + v) + [' '] + x;
  }

  /** The filesystem path of a request target: a target shorter than two
      characters stands for `/index.html`, and the result is the target
      behind a leading `.`. */
  function ResolvePath(target: string): (r: string)
    ensures |r| >= 3 && r[0] == '.'
    ensures |target| < 2 ==> r == "./index.html"
    ensures |target| >= 2 ==> r[1..] == target
  {
    "." + (if |target| < 2 then "/index.html" else target)
  }

  /** The extension of a resolved path: the last non-empty `.`-separated
      segment, widened by `strstr` to the suffix of the path that starts at
      that segment's first occurrence. */
  function Extension(path: string): (r: Result<string, ParseError>)
    ensures r.Err? <==> AllIn(path, Dots)
    ensures r.Err? ==> r.error == NoExtension
    ensures r.Ok? ==> r.value != [] && |r.value| <= |path| && r.value == path[|path| - |r.value|..]
  {
    assert path[0..] == path;
    match LastToken(path, 0, Dots, None)
    case None => Err(NoExtension)
    case Some(sp) =>
      var seg := path[sp.start..sp.end];
      assert MatchAt(path, seg, sp.start);
      var k := Find(path, seg, 0).value;
      assert k + |seg| <= |path| && sp.start < sp.end;
      assert |path| - |path[k..]| == k;
      Ok(path[k..])
  }

  /** In a path whose final dot is at `k` and which does not end there,
      the only token followed by nothing but dots is the text after `k`. */
  lemma TokenAfterFinalDot(path: string, k: nat, sp: Span)
    requires k + 1 < |path| && path[k] == '.' && NoneIn(path[k + 1..], Dots)
    requires IsToken(path, sp, Dots) && AllIn(path[sp.next..], Dots)
    ensures sp == Span(k + 1, |path|, |path|)
  {
    var last := |path| - 1;
    assert path[k + 1..] == path[k + 1..|path|] && path[sp.next..] == path[sp.next..|path|];
    NoneInSlice(path, k + 1, |path|, Dots);
    AllInSlice(path, sp.next, |path|, Dots);
    NoneInSlice(path, sp.start, sp.end, Dots);
    assert path[last] != '.';
    assert sp.next == |path|;
    assert sp.end == |path|;
    assert path[k] == '.';
    assert sp.start > k;
    assert sp.start <= k + 1;
  }

  /** When the path does not end in a dot, the last segment the extension
      loop keeps is exactly the text after the final dot. */
  lemma FinalSegment(path: string, k: nat)
    requires k + 1 < |path| && path[k] == '.' && NoneIn(path[k + 1..], Dots)
    ensures LastToken(path, 0, Dots, None) == Some(Span(k + 1, |path|, |path|))
  {
    var last := |path| - 1;
    assert !AllIn(path[0..], Dots) by {
      assert path[k + 1..][last - (k + 1)] == path[last];
      assert path[0..][last] == path[last];
    }
    var sp := LastToken(path, 0, Dots, None).value;
    TokenAfterFinalDot(path, k, sp);
  }

  /** `needle` occurs in `hay` at position `k` and nowhere else. */
  ghost predicate OccursOnlyAt(hay: string, needle: string, k: nat) {
    MatchAt(hay, needle, k) && forall j :: MatchAt(hay, needle, j) ==> j == k
  }

  /** When the path does not end in a dot, the extension is the path from
      the first occurrence of the text after the final dot. */
  lemma ExtensionFromFinalDot(path: string, k: nat) returns (first: nat)
    requires k + 1 < |path| && path[k] == '.' && NoneIn(path[k + 1..], Dots)
    ensures Find(path, path[k + 1..], 0) == Some(first)
    ensures Extension(path) == Ok(path[first..])
  {
    var seg := path[k + 1..];
    assert path[k + 1..|path|] == seg;
    assert MatchAt(path, seg, k + 1);
    first := Find(path, seg, 0).value;
    FinalSegment(path, k);
    assert LastToken(path, 0, Dots, None) == Some(Span(k + 1, |path|, |path|));
  }

  /** For every path that is not all dots, the extension is the path from
      the first occurrence of its last non-empty `.`-separated segment; so
      `./a.b.` has extension `b.`. */
  lemma ExtensionOfLastSegment(path: string)
    requires !AllIn(path, Dots)
    ensures var t := Segments(path, Dots);
            && t != []
            && Find(path, t[|t| - 1], 0).Some?
            && Extension(path) == Ok(path[Find(path, t[|t| - 1], 0).value..])
  {
    TokensAreSegments(path, 0, Dots);
    assert path[0..] == path;
    var sp := LastToken(path, 0, Dots, None).value;
    assert MatchAt(path, path[sp.start..sp.end], sp.start);
  }

  /** When the last segment occurs nowhere else in the path, the extension
      is exactly the text after the final dot. */
  lemma ExtensionAfterFinalDot(path: string, k: nat)
    requires k + 1 < |path| && path[k] == '.' && NoneIn(path[k + 1..], Dots)
    requires OccursOnlyAt(path, path[k + 1..], k + 1)
    ensures Extension(path) == Ok(path[k + 1..])
  {
    var first := ExtensionFromFinalDot(path, k);
  }

  /** A final segment that also occurs earlier widens the extension:
      for `front` = `./a/` and `w` = `html`, the path `./a/html.html` has
      extension `html.html`, not `html`. */
  lemma ExtensionWidens(front: string, w: string)
    requires w != [] && NoneIn(w, Dots)
    requires forall j :: 0 <= j < |front| ==> !MatchAt(front + w + "." + w, w, j)
    ensures Extension(front + w + "." + w) == Ok(w + "." + w)
  {
    var path := front + w + "." + w;
    var rest := w + "." + w;
    var k := |front| + |w|;
    assert path == front + rest;
    assert path[|front|..] == rest;
    assert path[k] == '.';
    assert path[k + 1..] == w;
    assert path[|front|..|front| + |w|] == w;
    assert MatchAt(path, w, |front|);
    var first := ExtensionFromFinalDot(path, k);
    assert first == |front|;
  }

  /** The fixed extension table; matching is exact and case-sensitive. */
  const MimeTable: map<string, Mime> := map[
    "jpg" := Image, "png" := Image, "gif" := Image,
    "htm" := Text, "html" := Text, "css" := Text,
    "mkv" := Video, "avi" := Video, "mp4" := Video]

  /** The class of an extension: the table's entry, and Text for every
      extension the table does not list. */
  function Classify(ext: string): (m: Mime)
    ensures m == (if ext in MimeTable then MimeTable[ext] else Text)
    ensures m == Image <==> ext in {"jpg", "png", "gif"}
    ensures m == Video <==> ext in {"mkv", "avi", "mp4"}
  {
    // The source compares with "gif" twice; the second test is redundant.
    if ext == "jpg" || ext == "png" || ext == "gif" then Image
    else if ext == "htm" || ext == "html" || ext == "css" then Text
    else if ext == "mkv" || ext == "avi" || ext == "mp4" then Video
    else Text
  }

  /** `http_inflight_parse` on one request line. */
  function ParseLine(line: string): (r: Result<Request, ParseError>)
    ensures r.Ok? ==> |r.value.path| >= 3 && r.value.path[0] == '.'
    ensures r.Ok? ==> r.value.ext != [] && |r.value.ext| <= |r.value.path|
                      && r.value.ext == r.value.path[|r.value.path| - |r.value.ext|..]
    ensures r.Ok? ==> Extension(r.value.path) == Ok(r.value.ext) && r.value.mime == Classify(r.value.ext)
    ensures r.Ok? ==> Tokenise(line).Ok? && r.value.verb == Tokenise(line).value.verb
                      && r.value.path == ResolvePath(Tokenise(line).value.target)
    ensures r.Ok? <==> Tokenise(line).Ok? && !AllIn(ResolvePath(Tokenise(line).value.target), Dots)
    ensures Tokenise(line).Err? ==> r == Err(Tokenise(line).error)
    ensures Tokenise(line).Ok? && AllIn(ResolvePath(Tokenise(line).value.target), Dots) ==>
              r == Err(NoExtension)
  {
    match Tokenise(line)
    case Err(e) => Err(e)
    case Ok(rl) =>
      var path := ResolvePath(rl.target);
      match Extension(path)
      case Err(e) => Err(e)
      case Ok(ext) => Ok(Request(rl.verb, path, ext, Classify(ext)))
  }

  /** `http_inflight_parse`: only the head line of the list is read. */
  function ParseInflight(inf: Inflight): (r: Result<Request, ParseError>)
    requires Valid(inf)
    ensures Lines(inf) == [] ==> r == Err(NoRequestLine)
    ensures Lines(inf) != [] ==> r == ParseLine(Lines(inf)[0])
  {
    match inf.head
    case None => Err(NoRequestLine)
    case Some(h) => ParseLine(inf.nodes[h].content)
  }

  /** `http_inflight_parse(http_inflight_new(buf))`, as the receive
      callback calls it. */
  function ParseRequest(buf: string): (r: Result<Request, ParseError>)
    ensures Segments(buf, LineBreaks) == [] <==> r == Err(NoRequestLine)
    ensures Segments(buf, LineBreaks) != [] ==> r == ParseLine(Segments(buf, LineBreaks)[0])
  {
    ParseInflight(InflightNew(buf))
  }

  /** A non-empty first line, followed by CR LF and anything at all, is
      the line that gets parsed. */
  lemma RequestLineFirst(line: string, rest: string)
    requires line != [] && NoneIn(line, LineBreaks)
    ensures ParseRequest(line + "\r\n" + rest) == ParseLine(line)
  {
    SplitWord(line, LineBreaks);
    SplitAppend(line, '\r', "\n" + rest, LineBreaks);
    assert line + "\r\n" + rest == line + ['\r'] + ("\n" + rest);
    SplitIsSegments(line + "\r\n" + rest, LineBreaks);
  }

  /** Three words separated by single spaces make one line. */
  lemma WordsOneLine(m: string, p: string, v: string)
    requires Word(m) && Word(p) && Word(v)
    ensures var line := m + " " + p + " " + v;
            line != [] && NoneIn(line, LineBreaks)
  {
    var line := m + " " + p + " " + v;
    forall i | 0 <= i < |line| ensures line[i] !in LineBreaks {
      assert line[i] in Blanks ==> line[i] == ' ';
    }
  }

  /** A well-formed request line followed by CR LF and anything at all
      parses to its method and the resolved target, and fails only when the
      resolved path is made of dots. */
  lemma ParseRequestRoundTrip(m: string, p: string, v: string, rest: string)
    requires Word(m) && Word(p) && Word(v)
    ensures var r := ParseRequest(m + " " + p + " " + v + "\r\n" + rest);
            && (r.Ok? ==> r.value.verb == m && r.value.path == ResolvePath(p))
            && (r.Err? <==> AllIn(ResolvePath(p), Dots))
  {
    WordsOneLine(m, p, v);
    RequestLineFirst(m + " " + p + " " + v, rest);
    TokeniseRoundTrip(m, p, v);
  }

  /** The default document: the path `./index.html` has extension `html`. */
  lemma IndexExtension()
    ensures Extension("./index.html") == Ok("html")
  {
    var path := "./index.html";
    var seg := path[8..];
    assert seg == "html";
    assert NoneIn(seg, Dots) by {
      assert seg[0] == 'h' && seg[1] == 't' && seg[2] == 'm' && seg[3] == 'l';
    }
    assert OccursOnlyAt(path, seg, 8) by {
      assert path[8..12] == seg;
      forall j | MatchAt(path, seg, j) ensures j == 8 {
        assert path[j..j + 4][0] == 'h';
      }
    }
    ExtensionAfterFinalDot(path, 7);
  }

  /** A request line for `/`, whatever its method and version and
      whatever follows it, resolves to the default document, served as
      `text/html`. */
  lemma RootRequest(m: string, v: string, rest: string)
    requires Word(m) && Word(v)
    ensures ParseRequest(m + " " + "/" + " " + v + "\r\n" + rest) == Ok(Request(m, "./index.html", "html", Text))
  {
    var p := "/";
    assert Word(p) by {
      assert p[0] == '/';
    }
    WordsOneLine(m, p, v);
    RequestLineFirst(m + " " + p + " " + v, rest);
    TokeniseRoundTrip(m, p, v);
    assert ResolvePath(p) == "./index.html";
    IndexExtension();
  }
}
