/** Models of the two C string routines the request parser is built on:
    `strtok_r`, which cuts a string into tokens at any character of a
    delimiter set, and `strstr`, which finds the first occurrence of a
    substring. A reference reading of "the maximal delimiter-free segments of
    a string" is given next to `strtok_r` and proved to agree with it. */
module CStrings {
  import opened Outcome

  predicate AllIn(s: string, delims: set<char>) {
    forall i :: 0 <= i < |s| ==> s[i] in delims
  }

  predicate NoneIn(s: string, delims: set<char>) {
    forall i :: 0 <= i < |s| ==> s[i] !in delims
  }

  /** `AllIn` of a slice, stated on the string's own indices. */
  lemma AllInSlice(s: string, lo: nat, hi: nat, delims: set<char>)
    requires lo <= hi <= |s|
    ensures AllIn(s[lo..hi], delims) <==> forall j :: lo <= j < hi ==> s[j] in delims
  {
    assert forall j :: lo <= j < hi ==> s[lo..hi][j - lo] == s[j];
  }

  /** `NoneIn` of a slice, stated on the string's own indices. */
  lemma NoneInSlice(s: string, lo: nat, hi: nat, delims: set<char>)
    requires lo <= hi <= |s|
    ensures NoneIn(s[lo..hi], delims) <==> forall j :: lo <= j < hi ==> s[j] !in delims
  {
    assert forall j :: lo <= j < hi ==> s[lo..hi][j - lo] == s[j];
  }

  /** One token found by `strtok_r`: the token is `s[start..end]`, and `next`
      is where the saved pointer resumes, one past the delimiter that
      `strtok_r` overwrote with a NUL, or the end of the string. */
  datatype Span = Span(start: nat, end: nat, next: nat)

  /** `sp` is what one `strtok_r` call returns when resumed at `pos`: the
      delimiters before the token are skipped, the token is non-empty,
      delimiter-free and maximal, and the saved pointer moves past it. */
  predicate Cut(s: string, pos: nat, sp: Span, delims: set<char>) {
    && pos <= sp.start < sp.end <= sp.next <= |s|
    && AllIn(s[pos..sp.start], delims)
    && NoneIn(s[sp.start..sp.end], delims)
    && (sp.end < |s| ==> s[sp.end] in delims && sp.next == sp.end + 1)
    && (sp.end == |s| ==> sp.next == |s|)
  }

  /** First index at or after `i` that holds no delimiter, or `|s|`. */
  function SkipDelims(s: string, i: nat, delims: set<char>): (j: nat)
    requires i <= |s|
    ensures i <= j <= |s|
    ensures AllIn(s[i..j], delims)
    ensures j < |s| ==> s[j] !in delims
    decreases |s| - i
  {
    if i == |s| || s[i] !in delims then i else SkipDelims(s, i + 1, delims)
  }

  /** First index at or after `i` that holds a delimiter, or `|s|`. */
  function SkipToken(s: string, i: nat, delims: set<char>): (j: nat)
    requires i <= |s|
    ensures i <= j <= |s|
    ensures NoneIn(s[i..j], delims)
    ensures j < |s| ==> s[j] in delims
    decreases |s| - i
  {
    if i == |s| || s[i] in delims then i else SkipToken(s, i + 1, delims)
  }

  /** One call of `strtok_r` whose saved pointer stands at `pos`; `None`
      plays the NULL that ends the caller's loop. */
  function Strtok(s: string, pos: nat, delims: set<char>): (r: Option<Span>)
    requires pos <= |s|
    ensures r.None? <==> AllIn(s[pos..], delims)
    ensures r.Some? ==> Cut(s, pos, r.value, delims)
  {
    var start := SkipDelims(s, pos, delims);
    if start == |s| then
      assert s[pos..start] == s[pos..];
      None
    else
      assert s[pos..][start - pos] == s[start];
      var end := SkipToken(s, start, delims);
      Some(Span(start, end, if end < |s| then end + 1 else end))
  }

  /** Every token the loop `for (t = strtok_r(..); t; t = strtok_r(NULL, ..))`
      sees, from saved pointer `pos` on, in order. */
  function Tokens(s: string, pos: nat, delims: set<char>): (r: seq<string>)
    requires pos <= |s|
    ensures forall k :: 0 <= k < |r| ==> r[k] != [] && NoneIn(r[k], delims)
    decreases |s| - pos
  {
    match Strtok(s, pos, delims)
    case None => []
    case Some(sp) => [s[sp.start..sp.end]] + Tokens(s, sp.next, delims)
  }

  /** All tokens of `s`: the loop started on the whole string. */
  function Split(s: string, delims: set<char>): (r: seq<string>)
    ensures r == [] <==> AllIn(s, delims)
  {
    assert s[0..] == s;
    Tokens(s, 0, delims)
  }

  /** A span that `strtok_r` can hand out: a non-empty delimiter-free token
      that starts the string or follows a delimiter, and is maximal. */
  predicate IsToken(s: string, sp: Span, delims: set<char>) {
    && sp.start < sp.end <= sp.next <= |s|
    && NoneIn(s[sp.start..sp.end], delims)
    && (sp.start == 0 || s[sp.start - 1] in delims)
    && (sp.end < |s| ==> s[sp.end] in delims && sp.next == sp.end + 1)
    && (sp.end == |s| ==> sp.next == |s|)
  }

  /** The loop `for (t = strtok_r(..); t; ..) last = t;`: walks every token
      from `pos` on and keeps the latest one, starting from `latest`. */
  function LastToken(s: string, pos: nat, delims: set<char>, latest: Option<Span>): (r: Option<Span>)
    requires pos <= |s|
    requires pos == 0 || pos == |s| || s[pos - 1] in delims
    requires latest.Some? ==> IsToken(s, latest.value, delims) && latest.value.next == pos
    ensures r.None? <==> latest.None? && AllIn(s[pos..], delims)
    ensures r.Some? ==> IsToken(s, r.value, delims) && AllIn(s[r.value.next..], delims)
    ensures Tokens(s, pos, delims) == [] ==> r == latest
    ensures Tokens(s, pos, delims) != [] ==>
              r.Some? && s[r.value.start..r.value.end] == Tokens(s, pos, delims)[|Tokens(s, pos, delims)| - 1]
    decreases |s| - pos
  {
    match Strtok(s, pos, delims)
    case None => latest
    case Some(sp) =>
      assert sp.start > pos ==> s[pos..sp.start][sp.start - 1 - pos] == s[sp.start - 1];
      LastToken(s, sp.next, delims, Some(sp))
  }

  /** `hay[k..]` starts with `needle`. */
  predicate MatchAt(hay: string, needle: string, k: int) {
    0 <= k && k + |needle| <= |hay| && hay[k..k + |needle|] == needle
  }

  /** `strstr`: the first position at or after `from` where `needle` occurs
      in `hay`, or `None` (NULL) when it does not occur. */
  function Find(hay: string, needle: string, from: nat): (r: Option<nat>)
    ensures r.Some? ==> from <= r.value && MatchAt(hay, needle, r.value)
    ensures r.Some? ==> forall j :: from <= j < r.value ==> !MatchAt(hay, needle, j)
    ensures r.None? ==> forall j :: from <= j ==> !MatchAt(hay, needle, j)
    decreases |hay| - from
  {
    if from + |needle| > |hay| then None
    else if hay[from..from + |needle|] == needle then Some(from)
    else Find(hay, needle, from + 1)
  }

  // ---------------------------------------------------------------------
  // Reference reading: the pieces between delimiters.
  // ---------------------------------------------------------------------

  /** `s` cut at every delimiter, empty pieces included: a string with `n`
      delimiters has `n + 1` pieces. */
  function Pieces(s: string, delims: set<char>): (r: seq<string>)
    ensures |r| >= 1
  {
    if s == [] then [[]]
    else
      var rest := Pieces(s[1..], delims);
      if s[0] in delims then [[]] + rest
      else [[s[0]] + rest[0]] + rest[1..]
  }

  /** The non-empty strings of `ps`, in order. */
  function NonEmpty(ps: seq<string>): seq<string>
  {
    if ps == [] then []
    else (if ps[0] == [] then [] else [ps[0]]) + NonEmpty(ps[1..])
  }

  /** The maximal non-empty delimiter-free segments of `s`, in order. */
  function Segments(s: string, delims: set<char>): seq<string>
  {
    NonEmpty(Pieces(s, delims))
  }

  lemma {:induction false} NonEmptyAppend(a: seq<string>, b: seq<string>)
    ensures NonEmpty(a + b) == NonEmpty(a) + NonEmpty(b)
  {
    if a == [] {
      assert a + b == b;
    } else {
      assert (a + b)[1..] == a[1..] + b;
      NonEmptyAppend(a[1..], b);
    }
  }

  lemma {:induction false} PiecesOfDelims(a: string, b: string, delims: set<char>)
    requires AllIn(a, delims)
    ensures NonEmpty(Pieces(a + b, delims)) == NonEmpty(Pieces(b, delims))
  {
    if a != [] {
      assert (a + b)[1..] == a[1..] + b;
      assert (a + b)[0] == a[0];
      PiecesOfDelims(a[1..], b, delims);
    } else {
      assert a + b == b;
    }
  }

  lemma {:induction false} PiecesOfWord(w: string, b: string, delims: set<char>)
    requires NoneIn(w, delims)
    ensures Pieces(w + b, delims) == [w + Pieces(b, delims)[0]] + Pieces(b, delims)[1..]
  {
    if w == [] {
      var p := Pieces(b, delims);
      assert w + b == b;
      assert w + p[0] == p[0];
      assert [w + p[0]] + p[1..] == [p[0]] + p[1..] == p;
    } else {
      assert (w + b)[1..] == w[1..] + b;
      assert (w + b)[0] == w[0];
      PiecesOfWord(w[1..], b, delims);
      assert [w[0]] + (w[1..] + Pieces(b, delims)[0]) == w + Pieces(b, delims)[0];
    }
  }

  /** The tokens `strtok_r` hands out from `pos` on are exactly the
      segments of the rest of the string. */
  lemma {:induction false} TokensAreSegments(s: string, pos: nat, delims: set<char>)
    requires pos <= |s|
    ensures Tokens(s, pos, delims) == Segments(s[pos..], delims)
    decreases |s| - pos
  {
    match Strtok(s, pos, delims)
    case None =>
      assert s[pos..] == s[pos..] + [];
      PiecesOfDelims(s[pos..], [], delims);
    case Some(sp) =>
      TokensAreSegments(s, sp.next, delims);
      FirstSegment(s, pos, sp, delims);
  }

  /** The segments after the saved pointer `pos` are the token `sp` that
      `strtok_r` cuts there, followed by the segments after `sp.next`. */
  lemma FirstSegment(s: string, pos: nat, sp: Span, delims: set<char>)
    requires pos <= |s| && Cut(s, pos, sp, delims)
    ensures Segments(s[pos..], delims) == [s[sp.start..sp.end]] + Segments(s[sp.next..], delims)
  {
    var w := s[sp.start..sp.end];
    var b := s[sp.end..];
    assert s[pos..] == s[pos..sp.start] + (w + b);
    PiecesOfDelims(s[pos..sp.start], w + b, delims);
    PiecesOfWord(w, b, delims);
    if sp.end == |s| {
      assert b == [];
      assert Pieces(b, delims) == [[]];
      assert w + [] == w;
      assert Pieces(w + b, delims) == [w];
      assert s[sp.next..] == [];
      assert NonEmpty([w]) == [w] + NonEmpty([]);
    } else {
      assert b == [s[sp.end]] + s[sp.next..];
      assert b[1..] == s[sp.next..];
      assert Pieces(b, delims) == [[]] + Pieces(s[sp.next..], delims);
      assert w + Pieces(b, delims)[0] == w;
      assert Pieces(b, delims)[1..] == Pieces(s[sp.next..], delims);
      assert Pieces(w + b, delims) == [w] + Pieces(s[sp.next..], delims);
      NonEmptyAppend([w], Pieces(s[sp.next..], delims));
      assert NonEmpty([w]) == [w] + NonEmpty([]);
    }
  }

  /** `Split` returns exactly the maximal non-empty delimiter-free segments
      of its input, in input order. */
  lemma SplitIsSegments(s: string, delims: set<char>)
    ensures Split(s, delims) == Segments(s, delims)
  {
    TokensAreSegments(s, 0, delims);
    assert s[0..] == s;
  }

  lemma {:induction false} PiecesAppend(a: string, d: char, b: string, delims: set<char>)
    requires d in delims
    ensures Pieces(a + [d] + b, delims) == Pieces(a, delims) + Pieces(b, delims)
  {
    if a == [] {
      assert a + [d] + b == [d] + b;
      assert ([d] + b)[1..] == b;
    } else {
      assert (a + [d] + b)[1..] == a[1..] + [d] + b;
      assert (a + [d] + b)[0] == a[0];
      PiecesAppend(a[1..], d, b, delims);
    }
  }

  /** Cutting at one delimiter and splitting both sides gives the same lines
      as splitting the whole string. */
  lemma SplitAppend(a: string, d: char, b: string, delims: set<char>)
    requires d in delims
    ensures Split(a + [d] + b, delims) == Split(a, delims) + Split(b, delims)
  {
    SplitIsSegments(a + [d] + b, delims);
    SplitIsSegments(a, delims);
    SplitIsSegments(b, delims);
    PiecesAppend(a, d, b, delims);
    NonEmptyAppend(Pieces(a, delims), Pieces(b, delims));
  }

  /** A non-empty delimiter-free string is a single token. */
  lemma SplitWord(w: string, delims: set<char>)
    requires w != [] && NoneIn(w, delims)
    ensures Split(w, delims) == [w]
  {
    SplitIsSegments(w, delims);
    PiecesOfWord(w, [], delims);
    assert w + [] == w;
    assert Pieces(w, delims) == [w];
    assert NonEmpty([w]) == [w] + NonEmpty([]);
  }
}
