/** The response headers `on_open` writes into the serve buffer with
    `sprintf`, and the lengths it computes for them. */
module Header {
  import opened Request

  /** `CHUNK`: the size of the serve buffer and of every file read. */
  const Chunk: nat := 1024

  /** The `OK_RESPONSE` format. */
  const OkResponse: string := "HTTP/1.1 200 OK\r\nContent-Type: %s/%s\r\n\r\n"

  /** The `NOT_FOUND_RESPONSE` literal. */
  const NotFoundResponse: string := "HTTP/1.1 404 NOT FOUND\r\n\r\n"

  /** The number of `%s` conversions in a format. */
  function Conversions(fmt: string): nat
  {
    if |fmt| < 2 then 0
    else if fmt[0] == '%' && fmt[1] == 's' then 1 + Conversions(fmt[2..])
    else Conversions(fmt[1..])
  }

  /** `sprintf` restricted to `%s`: each conversion is replaced by the next
      argument, every other character is copied. */
  function Format(fmt: string, args: seq<string>): string
    requires |args| == Conversions(fmt)
    decreases |fmt|
  {
    if |fmt| < 2 then fmt
    else if fmt[0] == '%' && fmt[1] == 's' then args[0] + Format(fmt[2..], args[1..])
    else [fmt[0]] + Format(fmt[1..], args)
  }

  /** The total length of some strings. */
  function TotalLength(args: seq<string>): nat
  {
    if args == [] then 0 else |args[0]| + TotalLength(args[1..])
  }

  /** The length `sprintf` produces: the format loses two characters per
      conversion and gains each argument's length. */
  lemma {:induction false} FormatLength(fmt: string, args: seq<string>)
    requires |args| == Conversions(fmt)
    ensures 2 * Conversions(fmt) <= |fmt|
    ensures |Format(fmt, args)| == |fmt| - 2 * Conversions(fmt) + TotalLength(args)
    decreases |fmt|
  {
    if |fmt| < 2 {
    } else if fmt[0] == '%' && fmt[1] == 's' {
      FormatLength(fmt[2..], args[1..]);
    } else {
      FormatLength(fmt[1..], args);
    }
  }

  /** A format prefix without `%` is copied as it is. */
  lemma {:induction false} FormatLiteral(lit: string, rest: string, args: seq<string>)
    requires forall i :: 0 <= i < |lit| ==> lit[i] != '%'
    requires |args| == Conversions(rest)
    ensures Conversions(lit + rest) == Conversions(rest)
    ensures Format(lit + rest, args) == lit + Format(rest, args)
    decreases |lit|
  {
    if lit == [] {
      assert lit + rest == rest;
    } else {
      var fmt := lit + rest;
      assert fmt[0] == lit[0] != '%';
      assert fmt[1..] == lit[1..] + rest;
      assert forall i :: 0 <= i < |lit[1..]| ==> lit[1..][i] != '%' by {
        assert forall i :: 0 <= i < |lit[1..]| ==> lit[1..][i] == lit[i + 1];
      }
      FormatLiteral(lit[1..], rest, args);
      if |fmt| < 2 {
        assert rest == [] && fmt == lit;
      } else {
        assert Conversions(fmt) == Conversions(fmt[1..]);
        assert Format(fmt, args) == [fmt[0]] + Format(fmt[1..], args);
        assert [lit[0]] + (lit[1..] + Format(rest, args)) == lit + Format(rest, args);
      }
    }
  }

  /** A leading conversion takes the first argument. */
  lemma FormatConversion(rest: string, arg: string, args: seq<string>)
    requires |args| == Conversions(rest)
    ensures Conversions("%s" + rest) == 1 + Conversions(rest)
    ensures Format("%s" + rest, [arg] + args) == arg + Format(rest, args)
  {
    assert ("%s" + rest)[2..] == rest;
    assert ([arg] + args)[1..] == args;
  }

  /** The content-class kind written into the header. */
  function Label(m: Mime): (r: string)
    ensures m == Text <==> r == "text"
    ensures m == Image <==> r == "image"
    ensures m == Video <==> r == "video"
  {
    match m
    case Text => "text"
    case Image => "image"
    case Video => "video"
  }

  /** The format `/%s` followed by `%`-free text. */
  lemma FormatSlashConversion(tail: string, ext: string)
    requires forall i :: 0 <= i < |tail| ==> tail[i] != '%'
    ensures Conversions("/" + ("%s" + tail)) == 1
    ensures Format("/" + ("%s" + tail), [ext]) == "/" + (ext + tail)
  {
    FormatLiteral(tail, [], []);
    assert tail + [] == tail;
    FormatConversion(tail, ext, []);
    assert [ext] + [] == [ext];
    FormatLiteral("/", "%s" + tail, [ext]);
  }

  /** A format made of two conversions between `%`-free text. */
  lemma FormatTwoConversions(front: string, tail: string, kind: string, ext: string)
    requires forall i :: 0 <= i < |front| ==> front[i] != '%'
    requires forall i :: 0 <= i < |tail| ==> tail[i] != '%'
    ensures Conversions(front + ("%s" + ("/" + ("%s" + tail)))) == 2
    ensures Format(front + ("%s" + ("/" + ("%s" + tail))), [kind, ext]) == front + kind + "/" + ext + tail
  {
    var slash := "/" + ("%s" + tail);
    var fmt := "%s" + slash;
    assert Conversions(fmt) == 2 && Format(fmt, [kind, ext]) == kind + ("/" + (ext + tail)) by {
      FormatSlashConversion(tail, ext);
      FormatConversion(slash, kind, [ext]);
      assert [kind] + [ext] == [kind, ext];
    }
    FormatLiteral(front, fmt, [kind, ext]);
    assert front + (kind + ("/" + (ext + tail))) == front + kind + "/" + ext + tail;
  }

  /** The format filled with a label and an extension, spelled out. */
  lemma OkResponseFilled(kind: string, ext: string)
    ensures Conversions(OkResponse) == 2
    ensures Format(OkResponse, [kind, ext])
            == "HTTP/1.1 200 OK\r\nContent-Type: " + kind + "/" + ext + "\r\n\r\n"
  {
    var front := "HTTP/1.1 200 OK\r\nContent-Type: ";
    var tail := "\r\n\r\n";
    assert OkResponse == front + ("%s" + ("/" + ("%s" + tail)));
    FormatTwoConversions(front, tail, kind, ext);
  }

  /** The 200 header for a class and an extension, as `sprintf` writes it. */
  function OkHeader(m: Mime, ext: string): (r: string)
    ensures r == "HTTP/1.1 200 OK\r\nContent-Type: " + Label(m) + "/" + ext + "\r\n\r\n"
  {
    OkResponseFilled(Label(m), ext);
    Format(OkResponse, [Label(m), ext])
  }

  /** The 200 header of each class, spelled out: `text/`, `image/` or
      `video/` before the extension. */
  lemma ClassHeader(m: Mime, ext: string)
    ensures m == Text ==> OkHeader(m, ext) == "HTTP/1.1 200 OK\r\nContent-Type: " + "text" + "/" + ext + "\r\n\r\n"
    ensures m == Image ==> OkHeader(m, ext) == "HTTP/1.1 200 OK\r\nContent-Type: " + "image" + "/" + ext + "\r\n\r\n"
    ensures m == Video ==> OkHeader(m, ext) == "HTTP/1.1 200 OK\r\nContent-Type: " + "video" + "/" + ext + "\r\n\r\n"
  {
  }

  /** The header length `on_open` computes, `strlen(OK_RESPONSE) - 4 +
      strlen(type) + strlen(ext)`: it is exactly the length of the header
      `sprintf` wrote, so the write sends the whole header and no more. */
  function OkHeaderLength(m: Mime, ext: string): (n: nat)
    ensures n == |OkHeader(m, ext)|
  {
    OkResponseFilled(Label(m), ext);
    FormatLength(OkResponse, [Label(m), ext]);
    assert TotalLength([Label(m), ext]) == |Label(m)| + |ext|;
    |OkResponse| - 4 + |Label(m)| + |ext|
  }

  /** `sprintf` of the 404 literal, which has no conversions, writes the
      literal itself, and `strlen` of it is its length: `on_open` writes
      the literal unchanged. */
  lemma NotFoundFormatted()
    ensures Conversions(NotFoundResponse) == 0
    ensures Format(NotFoundResponse, []) == NotFoundResponse
  {
    FormatLiteral(NotFoundResponse, [], []);
    assert NotFoundResponse + [] == NotFoundResponse;
  }

  /** `sprintf` into the `CHUNK`-byte serve buffer stays inside it: the
      text and its terminating NUL fit. */
  predicate Fits(text: string) {
    |text| + 1 <= Chunk
  }
}
