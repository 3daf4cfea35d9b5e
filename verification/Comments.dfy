/**
 What the minifier makes of comments.  A text is read here as a row of chunks; those that are
 space or comments are dropped and the others kept, and every text that can be minified is
 such a row.
 */
module Comments {
  import opened Options
  import opened CString
  import opened Parsing
  import opened Minifying

  /** One character inside a literal, or an escape of one. */
  datatype Stroke = One(c: char) | Escaped(c: char)

  datatype Chunk =
    | Blank(c: char)
    | Line(note: string)             // a double-slash comment, without its line feed
    | Block(note: string)            // what stands between the two marks
    | Slash                       // the comment that is three characters long: its star serves both marks
    | Literal(strokes: seq<Stroke>)
    | Other(c: char)

  predicate FineStroke(s: Stroke) {
    match s
    case One(c) => c != NUL && c != '\"' && c != '\\'
    case Escaped(c) => c != NUL
  }

  predicate FineStrokes(ss: seq<Stroke>) {
    forall i | 0 <= i < |ss| :: FineStroke(ss[i])
  }

  function SpellStroke(s: Stroke): string {
    match s
    case One(c) => [c]
    case Escaped(c) => ['\\', c]
  }

  function SpellStrokes(ss: seq<Stroke>): string {
    if ss == [] then "" else SpellStroke(ss[0]) + SpellStrokes(ss[1..])
  }

  /** The end of a comment does not occur in a text, nor with the star in front of it. */
  predicate NoEnd(c: string) {
    forall i | 0 <= i < |c| :: !(("*" + c)[i] == '*' && c[i] == '/')
  }

  /** What a chunk may be, with the text behind it. */
  predicate FineChunk(k: Chunk, rest: string) {
    match k
    case Blank(c) => c == ' ' || c == '\t' || c == '\r' || c == '\n'
    case Line(c) => NUL !in c && '\n' !in c && (rest == "" || rest[0] == '\n' || rest[0] == NUL)
    case Block(c) => NUL !in c && NoEnd(c)
    case Slash => true
    case Literal(strokes) => FineStrokes(strokes)
    case Other(c) =>
      && c != NUL && c != '\"' && !(c == ' ' || c == '\t' || c == '\r' || c == '\n')
      && (c == '/' ==> rest == "" || (rest[0] != '/' && rest[0] != '*'))
  }

  function SpellChunk(k: Chunk): string {
    match k
    case Blank(c) => [c]
    case Line(c) => "//" + c
    case Block(c) => "/*" + c + "*/"
    case Slash => "/*/"
    case Literal(strokes) => "\"" + SpellStrokes(strokes) + "\""
    case Other(c) => [c]
  }

  predicate FineChunks(ks: seq<Chunk>, rest: string) {
    ks == [] || (FineChunk(ks[0], SpellChunks(ks[1..]) + rest) && FineChunks(ks[1..], rest))
  }

  function SpellChunks(ks: seq<Chunk>): string {
    if ks == [] then "" else SpellChunk(ks[0]) + SpellChunks(ks[1..])
  }

  predicate Dropped(k: Chunk) {
    k.Blank? || k.Line? || k.Block? || k.Slash?
  }

  /** The chunks that are kept, spelled. */
  function Kept(ks: seq<Chunk>): string {
    if ks == [] then "" else (if Dropped(ks[0]) then "" else SpellChunk(ks[0])) + Kept(ks[1..])
  }

  // ---- Comments ----

  lemma {:induction false} LineEndOf(c: string, rest: string)
    requires NUL !in c && '\n' !in c && (rest == "" || rest[0] == '\n' || rest[0] == NUL)
    ensures LineEnd(c + rest) == |c|
    decreases |c|
  {
    if c == "" {
      assert c + rest == rest;
    } else {
      assert (c + rest)[1..] == c[1..] + rest && c[0] in c;
      LineEndOf(c[1..], rest);
    }
  }

  /** A double-slash comment is dropped up to its line feed, or to the end of the text. */
  lemma LineDropped(c: string, rest: string)
    requires NUL !in c && '\n' !in c && (rest == "" || rest[0] == '\n' || rest[0] == NUL)
    ensures Minify("//" + c + rest) == Minify(rest)
  {
    var s := "//" + c + rest;
    assert s == ("//" + c) + rest && s[1] == '/';
    LineEndOf("//" + c, rest);
    assert s[|"//" + c|..] == rest;
  }

  /** The first place, if there is one, where the search of a multiline comment ends. */
  lemma {:induction false} CommentEndOf(c: string, rest: string)
    requires c != "" && NUL !in c && forall i | 0 <= i < |c| - 1 :: !(c[i] == '*' && c[i + 1] == '/')
    requires c[|c| - 1] == '*' ==> rest != "" && rest[0] != '/'
    requires |rest| >= 2 && rest[0] == '*' && rest[1] == '/'
    ensures CommentEnd(c + rest) == |c|
    decreases |c|
  {
    var s := c + rest;
    assert s[1..] == c[1..] + rest && c[0] in c;
    if |c| == 1 {
      assert s[1..] == rest;
    } else {
      assert s[1] == c[1];
      CommentEndOf(c[1..], rest);
    }
  }

  /** A comment between its marks is dropped, whatever is in it but its end. */
  lemma BlockDropped(c: string, rest: string)
    requires NUL !in c && NoEnd(c)
    ensures Minify("/*" + c + "*/" + rest) == Minify(rest)
  {
    var s, body, tail := "/*" + c + "*/" + rest, "/*" + c, "*/" + rest;
    assert s == body + tail && s[0] == '/' && s[1] == '*';
    forall i | 0 <= i < |body| - 1 ensures !(body[i] == '*' && body[i + 1] == '/') {
      if i > 0 {
        assert body[i] == ("*" + c)[i - 1] && body[i + 1] == c[i - 1];
      }
    }
    CommentEndOf(body, tail);
    assert s[|body| + 2..] == rest;
  }

  /** The star of the opening mark is taken for that of the closing one. */
  lemma SlashDropped(rest: string)
    ensures Minify("/*/" + rest) == Minify(rest)
  {
    var s := "/*/" + rest;
    assert s[1..][0] == '*' && s[1..][1] == '/';
    assert CommentEnd(s[1..]) == 0;
    assert CommentEnd(s) == 1;
    assert s[3..] == rest;
  }

  // ---- Literals ----

  lemma {:induction false} StrokesClose(ss: seq<Stroke>, rest: string)
    requires FineStrokes(ss)
    ensures ClosingQuote(SpellStrokes(ss) + "\"" + rest) == Some(|SpellStrokes(ss)|)
  {
    var s := SpellStrokes(ss) + "\"" + rest;
    if ss == [] {
      assert s[0] == '\"';
    } else {
      var tail := SpellStrokes(ss[1..]) + "\"" + rest;
      StrokesClose(ss[1..], rest);
      assert FineStroke(ss[0]);
      assert s == SpellStroke(ss[0]) + tail;
      assert s[|SpellStroke(ss[0])|..] == tail;
      hide SpellStrokes;
    }
  }

  lemma LiteralKept(ss: seq<Stroke>, rest: string)
    requires FineStrokes(ss)
    ensures Minify("\"" + SpellStrokes(ss) + "\"" + rest) == Front("\"" + SpellStrokes(ss) + "\"", Minify(rest))
  {
    StrokesClose(ss, rest);
    var body := SpellStrokes(ss);
    var s := "\"" + body + "\"" + rest;
    assert s[0] == '\"' && s[1..] == body + "\"" + rest;
    assert s[..|body| + 2] == "\"" + body + "\"" && s[|body| + 2..] == rest;
    hide SpellStrokes, ClosingQuote, Front, FineStrokes;
  }

  // ---- Rows of chunks ----

  lemma ChunkMinified(k: Chunk, rest: string)
    requires FineChunk(k, rest)
    ensures Minify(SpellChunk(k) + rest) == Front(if Dropped(k) then "" else SpellChunk(k), Minify(rest))
  {
    NoFront(Minify(rest));
    match k
    case Blank(c) => assert ([c] + rest)[1..] == rest;
    case Line(c) => LineDropped(c, rest);
    case Block(c) => BlockDropped(c, rest);
    case Slash => SlashDropped(rest);
    case Literal(strokes) => LiteralKept(strokes, rest);
    case Other(c) => OtherKept(c, rest);
  }

  lemma OtherKept(c: char, rest: string)
    requires FineChunk(Other(c), rest)
    ensures Minify([c] + rest) == Front([c], Minify(rest))
  {
    assert ([c] + rest)[1..] == rest;
  }

  lemma NoFront(m: Option<string>)
    ensures Front("", m) == m
  {
    if m.Some? { assert "" + m.value == m.value; }
  }

  /** Minifying a row of chunks keeps the chunks that are neither space nor comments. */
  lemma {:induction false} ChunksMinified(ks: seq<Chunk>, rest: string)
    requires FineChunks(ks, rest)
    ensures Minify(SpellChunks(ks) + rest) == Front(Kept(ks), Minify(rest))
  {
    hide Minify, FineChunk, SpellChunk, Front;
    if ks == [] {
      assert "" + rest == rest;
      NoFront(Minify(rest));
    } else {
      var tail := SpellChunks(ks[1..]) + rest;
      assert SpellChunks(ks) + rest == SpellChunk(ks[0]) + tail;
      ChunkMinified(ks[0], tail);
      ChunksMinified(ks[1..], rest);
      FrontFront(if Dropped(ks[0]) then "" else SpellChunk(ks[0]), Kept(ks[1..]), Minify(rest));
    }
  }

  /** Comments make no difference: rows that differ only in what is dropped are minified alike. */
  lemma CommentsMakeNoDifference(ks: seq<Chunk>, ls: seq<Chunk>)
    requires FineChunks(ks, [NUL]) && FineChunks(ls, [NUL]) && Kept(ks) == Kept(ls)
    ensures Minify(SpellChunks(ks) + [NUL]) == Minify(SpellChunks(ls) + [NUL]) == Some(Kept(ks) + [NUL])
  {
    hide SpellChunks, FineChunks, Kept;
    ChunksMinified(ks, [NUL]);
    ChunksMinified(ls, [NUL]);
  }

  // ---- Every text that can be minified is a row of chunks ----

  lemma {:induction false} ReadStrokes(s: string, n: nat) returns (ss: seq<Stroke>)
    requires ClosingQuote(s) == Some(n) && NulFree(s[..n])
    ensures FineStrokes(ss) && SpellStrokes(ss) == s[..n]
    decreases |s|
  {
    if s[0] == '\"' {
      ss := [];
    } else if s[0] == '\\' {
      var more := ReadStrokes(s[2..], n - 2);
      ss := [Escaped(s[1])] + more;
      assert s[..n] == ['\\', s[1]] + s[2..][..n - 2];
      assert s[..n][1] == s[1];
    } else {
      var more := ReadStrokes(s[1..], n - 1);
      ss := [One(s[0])] + more;
      assert s[..n] == [s[0]] + s[1..][..n - 1];
      assert s[..n][0] == s[0];
    }
  }

  lemma {:induction false} LineEndRight(s: string)
    ensures NUL !in s[..LineEnd(s)] && '\n' !in s[..LineEnd(s)]
    ensures var t := s[LineEnd(s)..]; t == "" || t[0] == '\n' || t[0] == NUL
  {
    if !(s == "" || s[0] == NUL || s[0] == '\n') {
      LineEndRight(s[1..]);
      assert s[..LineEnd(s)] == [s[0]] + s[1..][..LineEnd(s[1..])];
    }
  }

  lemma {:induction false} CommentEndRight(s: string)
    ensures NUL !in s[..CommentEnd(s)]
    ensures forall i | 0 <= i < CommentEnd(s) && i + 1 < |s| :: !(s[i] == '*' && s[i + 1] == '/')
    ensures var t := s[CommentEnd(s)..]; t == "" || t[0] == NUL || (|t| > 1 && t[0] == '*' && t[1] == '/')
  {
    if !(s == "" || s[0] == NUL || (|s| > 1 && s[0] == '*' && s[1] == '/')) {
      CommentEndRight(s[1..]);
      assert s[..CommentEnd(s)] == [s[0]] + s[1..][..CommentEnd(s[1..])];
    }
  }

  /** A C string with its terminator. */
  predicate CText(s: string) {
    s != "" && s[|s| - 1] == NUL && NUL !in s[..|s| - 1]
  }

  lemma CTextTail(s: string, n: nat)
    requires CText(s) && n < |s|
    ensures CText(s[n..]) && NUL !in s[..n]
  {
    var t := s[n..];
    forall i | 0 <= i < |t| - 1 ensures t[i] != NUL { assert t[i] == s[..|s| - 1][n + i]; }
    forall i | 0 <= i < n ensures s[i] != NUL { assert s[i] == s[..|s| - 1][i]; }
  }

  /** The first chunk of a text that can be minified. */
  lemma ReadChunk(s: string) returns (k: Chunk, n: nat)
    requires CText(s) && |s| > 1 && Minify(s).Some?
    ensures 0 < n < |s| && SpellChunk(k) == s[..n] && FineChunk(k, s[n..]) && Minify(s[n..]).Some?
  {
    CTextTail(s, 1);
    assert s[..1][0] == s[0];
    if Space(s[0]) {
      k, n := Blank(s[0]), 1;
    } else if s[0] == '/' && s[1] == '/' {
      k, n := ReadLine(s);
    } else if s[0] == '/' && s[1] == '*' {
      k, n := ReadBlock(s);
    } else if s[0] == '\"' {
      k, n := ReadLiteral(s);
    } else {
      k, n := Other(s[0]), 1;
    }
  }

  lemma ReadLine(s: string) returns (k: Chunk, n: nat)
    requires CText(s) && |s| > 1 && Minify(s).Some? && s[0] == '/' && s[1] == '/'
    ensures 0 < n < |s| && SpellChunk(k) == s[..n] && FineChunk(k, s[n..]) && Minify(s[n..]).Some?
  {
    n := LineEnd(s);
    LineEndRight(s);
    assert LineEnd(s) == 2 + LineEnd(s[1..][1..]);
    assert s[..|s|][|s| - 1] == NUL && NUL in s[..|s|];
    assert s[..n] == "//" + s[2..n];
    k := Line(s[2..n]);
    forall i | 0 <= i < |s[2..n]| ensures s[2..n][i] != NUL && s[2..n][i] != '\n' {
      assert s[2..n][i] == s[..n][i + 2];
    }
  }

  lemma ReadBlock(s: string) returns (k: Chunk, n: nat)
    requires CText(s) && |s| > 1 && Minify(s).Some? && s[0] == '/' && s[1] == '*'
    ensures 0 < n < |s| && SpellChunk(k) == s[..n] && FineChunk(k, s[n..]) && Minify(s[n..]).Some?
  {
    var i := CommentEnd(s);
    CommentEndRight(s);
    n := i + 2;
    assert i > 0 && n <= |s|;
    assert s[i] == s[..|s| - 1][i] && s[i..][0] == s[i] && s[i..][1] == s[i + 1];
    assert s[i] == '*' && s[i + 1] == '/';
    assert n < |s|;
    if i == 1 {
      k := Slash;
      assert s[..n] == "/*/";
    } else {
      var c := s[2..i];
      k := Block(c);
      assert s[..n] == "/*" + c + "*/";
      forall j | 0 <= j < |c| ensures c[j] != NUL && !(("*" + c)[j] == '*' && c[j] == '/') {
        assert c[j] == s[..i][j + 2] && ("*" + c)[j] == s[j + 1];
      }
    }
  }

  lemma ReadLiteral(s: string) returns (k: Chunk, n: nat)
    requires CText(s) && |s| > 1 && Minify(s).Some? && s[0] == '\"'
    ensures 0 < n < |s| && SpellChunk(k) == s[..n] && FineChunk(k, s[n..]) && Minify(s[n..]).Some?
  {
    var q := ClosingQuote(s[1..]).value;
    n := q + 2;
    assert s[1..][q] == '\"' && s[q + 1] == '\"';
    assert n < |s|;
    CTextTail(s, n);
    forall i | 0 <= i < q ensures s[1..][..q][i] != NUL { assert s[1..][..q][i] == s[..n][i + 1]; }
    var strokes := ReadStrokes(s[1..], q);
    k := Literal(strokes);
    assert s[..n] == "\"" + s[1..][..q] + "\"";
  }

  /** A text that can be minified is a row of chunks, and one that is none cannot. */
  lemma {:induction false} ReadChunks(s: string) returns (ks: seq<Chunk>)
    requires CText(s) && Minify(s).Some?
    ensures FineChunks(ks, [NUL]) && SpellChunks(ks) + [NUL] == s
    decreases |s|
  {
    hide Minify, FineChunk, SpellChunk;
    if |s| == 1 {
      ks := [];
      assert s == "" + [NUL];
    } else {
      var k, n := ReadChunk(s);
      CTextTail(s, n);
      var more := ReadChunks(s[n..]);
      ks := [k] + more;
      assert ks[1..] == more;
      assert SpellChunks(ks) + [NUL] == s[..n] + (SpellChunks(more) + [NUL]);
    }
  }

  /** Exactly the rows of chunks can be minified, and what is left is what they keep. */
  lemma MinifiedExactly(s: string)
    requires CText(s)
    ensures Minify(s).Some? <==> exists ks: seq<Chunk> :: FineChunks(ks, [NUL]) && SpellChunks(ks) + [NUL] == s
    ensures forall ks: seq<Chunk> | FineChunks(ks, [NUL]) && SpellChunks(ks) + [NUL] == s :: Minify(s) == Some(Kept(ks) + [NUL])
  {
    hide FineChunks, SpellChunks, Kept, Minify;
    assert Minify([NUL]) == Some([NUL]) by { Ended(); }
    forall ks: seq<Chunk> | FineChunks(ks, [NUL]) && SpellChunks(ks) + [NUL] == s ensures Minify(s) == Some(Kept(ks) + [NUL]) {
      ChunksMinified(ks, [NUL]);
    }
    if Minify(s).Some? {
      var ks := ReadChunks(s);
    }
  }

  lemma Ended()
    ensures Minify([NUL]) == Some([NUL])
  {
  }
}
