/** The configuration file's tokenizer: next_word with its static 42-byte token buffer.

  A C string is a `string` here; both its end and a '\0' inside it stand for the terminating NUL.
  */
module Words {
  import opened Seqs

  const TOKEN_SIZE := 42

  /** Kinds of characters that end a scan: blanks, the ends of a line's readable part, the NUL. */
  datatype Kind = Blank | Stop | Nul

  predicate Is(k: Kind, c: char) {
    match k
    case Blank => c == ' ' || c == '\t'
    case Stop => c == '\0' || c == '\n' || c == '#'
    case Nul => c == '\0'
  }

  predicate Plain(c: char) {
    !Is(Blank, c) && !Is(Stop, c)
  }

  function Lower(c: char): char {
    if 'A' <= c <= 'Z' then c - 'A' + 'a' else c
  }

  // ---------------------------------------------------------------- the words of a line

  /** How many characters of `s` come before the first one of kind `k`. */
  function Span(s: string, k: Kind): (n: nat)
    ensures n <= |s|
    ensures forall i :: 0 <= i < n ==> !Is(k, s[i])
    ensures n < |s| ==> Is(k, s[n])
  {
    if s == "" || Is(k, s[0]) then 0 else 1 + Span(s[1..], k)
  }

  /** The part of a line that counts: what precedes a comment, the newline or the NUL. */
  function Visible(s: string): string {
    s[..Span(s, Stop)]
  }

  /** The maximal runs of non-blank characters of `t`, in order. */
  function Runs(t: string): seq<string>
    decreases |t|
  {
    if t == "" then []
    else if Is(Blank, t[0]) then Runs(t[1..])
    else var n := Span(t, Blank); [t[..n]] + Runs(t[n..])
  }

  /** `r` cut into pieces of TOKEN_SIZE characters, the last one possibly shorter. */
  function Pieces(r: string): seq<string>
    decreases |r|
  {
    if r == "" then []
    else if |r| <= TOKEN_SIZE then [r]
    else [r[..TOKEN_SIZE]] + Pieces(r[TOKEN_SIZE..])
  }

  function LowerAll(s: string): (t: string)
    ensures |t| == |s| && forall i :: 0 <= i < |s| ==> t[i] == Lower(s[i])
  {
    seq(|s|, i requires 0 <= i < |s| => Lower(s[i]))
  }

  function Flatten(rs: seq<string>): seq<string> {
    if rs == [] then [] else Pieces(LowerAll(rs[0])) + Flatten(rs[1..])
  }

  /** The words of a line: its runs before the first stop, lower-cased, cut to the buffer size. */
  function WordsOf(s: string): seq<string> {
    Flatten(Runs(Visible(s)))
  }

  lemma {:induction false} VisibleTail(s: string, i: nat)
    requires i <= |s| && forall j :: 0 <= j < i ==> !Is(Stop, s[j])
    ensures Visible(s) == s[..i] + Visible(s[i..])
    ensures Visible(s)[i..] == Visible(s[i..])
  {
    var n := Span(s[i..], Stop);
    assert forall j :: 0 <= j < n ==> s[i + j] == s[i..][j];
    assert forall j :: i <= j < i + n ==> !Is(Stop, s[j]) by {
      assert forall j :: i <= j < i + n ==> s[j] == s[i..][j - i];
    }
    assert Span(s, Stop) == i + n;
  }

  lemma BlankSkipped(line: string, at: nat)
    requires at < |line| && Is(Blank, line[at])
    ensures WordsOf(line[at..]) == WordsOf(line[at + 1..])
  {
    VisibleTail(line[at..], 1);
    assert line[at..][1..] == line[at + 1..];
  }

  lemma NothingLeft(s: string)
    requires s == "" || Is(Stop, s[0])
    ensures WordsOf(s) == []
  {
  }

  /** A plain prefix that fills the buffer, or ends where its run does, is the first word. */
  lemma FirstWord(s: string, i: nat)
    requires 0 < i <= |s| && i <= TOKEN_SIZE
    requires forall j :: 0 <= j < i ==> Plain(s[j])
    requires i == TOKEN_SIZE || i == |s| || Is(Blank, s[i]) || Is(Stop, s[i])
    ensures WordsOf(s) == [LowerAll(s[..i])] + WordsOf(s[i..])
  {
    VisibleTail(s, i);
    var v, u := Visible(s), Visible(s[i..]);
    assert v[..i] == s[..i];
    if i < |v| && !Is(Blank, v[i]) {
      LongRun(v, i);
    } else {
      assert Span(v, Blank) == i;
      assert Runs(v) == [v[..i]] + Runs(u);
      assert ([v[..i]] + Runs(u))[1..] == Runs(u);
    }
  }

  /** A run longer than the buffer is its first TOKEN_SIZE characters and then the words of the rest. */
  lemma LongRun(v: string, i: nat)
    requires i == TOKEN_SIZE < |v|
    requires forall j :: 0 <= j <= i ==> !Is(Blank, v[j])
    ensures Flatten(Runs(v)) == [LowerAll(v[..i])] + Flatten(Runs(v[i..]))
  {
    var n := Span(v, Blank);
    var r, tail := v[..n], Runs(v[n..]);
    LongRunSplit(v, i, n);
    FirstPiece(r, i);
    FlattenCons(r, tail);
    FlattenCons(r[i..], tail);
    Slices(v, i, n);
    Assoc([LowerAll(v[..i])], Pieces(LowerAll(r[i..])), Flatten(tail));
  }

  lemma LongRunSplit(v: string, i: nat, n: nat)
    requires i < |v| && n == Span(v, Blank)
    requires forall j :: 0 <= j <= i ==> !Is(Blank, v[j])
    ensures n > i
    ensures Runs(v) == [v[..n]] + Runs(v[n..])
    ensures Runs(v[i..]) == [v[..n][i..]] + Runs(v[n..])
  {
    SpanTail(v, i);
    Slices(v, i, n);
    RunsSplit(v[i..]);
  }

  lemma RunsSplit(v: string)
    requires v != "" && !Is(Blank, v[0])
    ensures Runs(v) == [v[..Span(v, Blank)]] + Runs(v[Span(v, Blank)..])
  {
  }

  lemma Slices<T>(v: seq<T>, i: nat, n: nat)
    requires i <= n <= |v|
    ensures v[i..][..n - i] == v[..n][i..] && v[i..][n - i..] == v[n..] && v[..n][..i] == v[..i]
  {
  }

  lemma FirstPiece(r: string, i: nat)
    requires i == TOKEN_SIZE < |r|
    ensures Pieces(LowerAll(r)) == [LowerAll(r[..i])] + Pieces(LowerAll(r[i..]))
  {
    assert LowerAll(r)[..i] == LowerAll(r[..i]) && LowerAll(r)[i..] == LowerAll(r[i..]);
  }

  lemma {:induction false} SpanTail(v: string, i: nat)
    requires i < |v| && forall j :: 0 <= j <= i ==> !Is(Blank, v[j])
    ensures Span(v, Blank) == i + Span(v[i..], Blank) > i
  {
    if i > 0 {
      SpanTail(v[1..], i - 1);
      assert v[1..][i - 1..] == v[i..];
    } else {
      assert v[0..] == v;
    }
  }

  lemma FlattenCons(r: string, rs: seq<string>)
    ensures Flatten([r] + rs) == Pieces(LowerAll(r)) + Flatten(rs)
  {
    assert ([r] + rs)[1..] == rs;
  }

  // ---------------------------------------------------------------- the buffer

  /** The C string stored in a buffer: its characters up to the first NUL, or all of them. */
  function CString(buf: seq<char>): string {
    buf[..Span(buf, Nul)]
  }

  class Lexer {
    const token: array<char>

    ghost predicate Valid() {
      token.Length == TOKEN_SIZE
    }

    constructor ()
      ensures Valid() && fresh(token)
    {
      token := new char[TOKEN_SIZE];
    }

    /** What a caller holding the returned pointer reads. */
    function Text(): string
      reads token
    {
      CString(token[..])
    }

    /** next_word, with the cursor at `line[at]` before and at `line[end]` after the call. */
    method NextWord(line: string, at: nat) returns (end: nat)
      requires Valid() && at <= |line|
      modifies token
      ensures at <= end <= |line|
      ensures Text() == "" ==> WordsOf(line[at..]) == [] && WordsOf(line[end..]) == []
      ensures Text() != "" ==> at < end && WordsOf(line[at..]) == [Text()] + WordsOf(line[end..])
    {
      hide WordsOf, CString;
      var i := 0;
      forall j | 0 <= j < TOKEN_SIZE {
        token[j] := '\0';
      }
      end := at;
      while end < |line| && Is(Blank, line[end])
        invariant at <= end <= |line| && WordsOf(line[end..]) == WordsOf(line[at..])
        invariant forall j :: 0 <= j < TOKEN_SIZE ==> token[j] == '\0'
      {
        BlankSkipped(line, end);
        end := end + 1;
      }
      ghost var start := end;
      while end < |line| && line[end] != '\0' && i < TOKEN_SIZE
        invariant end == start + i <= |line| && i <= TOKEN_SIZE
        invariant forall k :: start <= k < end ==> Plain(line[k])
        invariant forall j {:trigger token[j]} :: 0 <= j < i ==> token[j] == Lower(line[start + j])
        invariant forall j :: i <= j < TOKEN_SIZE ==> token[j] == '\0'
      {
        var c := line[end];
        if c == ' ' || c == '\t' {
          Filled(line, start, i);
          BlankSkipped(line, end);
          end := end + 1;
          return;
        }
        if c == '\n' || c == '#' {
          Filled(line, start, i);
          return;
        }
        token[i] := Lower(c);
        i := i + 1;
        end := end + 1;
      }
      Filled(line, start, i);
    }

    /** When the scan from `start` ends after `i` characters, the buffer holds the first word, if any. */
    lemma Filled(line: string, start: nat, i: nat)
      requires Valid() && start + i <= |line| && i <= TOKEN_SIZE
      requires forall k :: start <= k < start + i ==> Plain(line[k])
      requires forall j {:trigger token[j]} :: 0 <= j < i ==> token[j] == Lower(line[start + j])
      requires forall j :: i <= j < TOKEN_SIZE ==> token[j] == '\0'
      requires i == TOKEN_SIZE || start + i == |line| || Is(Stop, line[start + i])
               || (i > 0 && Is(Blank, line[start + i]))
      ensures i == 0 ==> Text() == "" && WordsOf(line[start..]) == []
      ensures i > 0 ==> Text() != "" && WordsOf(line[start..]) == [Text()] + WordsOf(line[start + i..])
    {
      var s, b := line[start..], token[..];
      forall j | 0 <= j < i ensures Plain(s[j]) && b[j] == Lower(s[j]) {
        assert b[j] == token[j] && s[j] == line[start + j];
      }
      assert i < TOKEN_SIZE ==> b[i] == '\0';
      assert Span(b, Nul) == i;
      assert Text() == LowerAll(s[..i]);
      if i == 0 {
        NothingLeft(s);
      } else {
        assert s[i..] == line[start + i..];
        FirstWord(s, i);
      }
    }

    /** Calling next_word until it returns "" visits the words of the text and then stays at "". */
    method AllWords(line: string) returns (ws: seq<string>)
      requires Valid()
      modifies token
      ensures ws == WordsOf(line)
    {
      hide WordsOf, CString;
      ws := [];
      var at := NextWord(line, 0);
      assert line[0..] == line;
      while Text() != ""
        invariant at <= |line|
        invariant WordsOf(line) == ws + (if Text() == "" then [] else [Text()]) + WordsOf(line[at..])
        invariant Text() == "" ==> WordsOf(line[at..]) == []
        decreases |line| - at, Text() != ""
      {
        ws := ws + [Text()];
        at := NextWord(line, at);
      }
    }
  }

  // ---------------------------------------------------------------- what the words are

  /** A word that next_word can return: short, lower case, without blanks or stops. */
  predicate GoodWord(w: string) {
    0 < |w| <= TOKEN_SIZE && forall i :: 0 <= i < |w| ==> Plain(w[i]) && Lower(w[i]) == w[i]
  }

  function Join(ws: seq<string>): string {
    if ws == [] then "" else ws[0] + " " + Join(ws[1..])
  }

  /** Words put on one line with blanks between them are read back unchanged. */
  lemma {:induction false} JoinRoundTrip(ws: seq<string>)
    requires forall w :: w in ws ==> GoodWord(w)
    ensures WordsOf(Join(ws)) == ws
  {
    if ws == [] {
      NothingLeft("");
    } else {
      var w, s, n := ws[0], Join(ws), |ws[0]|;
      assert GoodWord(w) && s[..n] == w && s[n] == ' ';
      assert forall j :: 0 <= j < n ==> s[j] == w[j];
      FirstWord(s, n);
      BlankSkipped(s, n);
      assert s[n + 1..] == Join(ws[1..]);
      assert LowerAll(w) == w;
      JoinRoundTrip(ws[1..]);
    }
  }

  function Glue(ws: seq<string>): string {
    if ws == [] then "" else ws[0] + Glue(ws[1..])
  }

  function NonBlank(t: string): string {
    if t == "" then "" else (if Is(Blank, t[0]) then "" else [Lower(t[0])]) + NonBlank(t[1..])
  }

  /** Nothing is lost or invented: the words glued together are the lower-cased non-blank visible text. */
  lemma WordsConserve(s: string)
    ensures Glue(WordsOf(s)) == NonBlank(Visible(s))
    ensures forall w :: w in WordsOf(s) ==> GoodWord(w)
  {
    RunsConserve(Visible(s));
  }

  lemma {:induction false} RunsConserve(t: string)
    requires forall i :: 0 <= i < |t| ==> !Is(Stop, t[i])
    ensures Glue(Flatten(Runs(t))) == NonBlank(t)
    ensures forall w :: w in Flatten(Runs(t)) ==> GoodWord(w)
    decreases |t|
  {
    if t != "" {
      if Is(Blank, t[0]) {
        RunsConserve(t[1..]);
      } else {
        RunsConserve(t[Span(t, Blank)..]);
        FirstRunConserves(t);
      }
    }
  }

  lemma FirstRunConserves(t: string)
    requires forall i :: 0 <= i < |t| ==> !Is(Stop, t[i])
    requires t != "" && !Is(Blank, t[0])
    requires Glue(Flatten(Runs(t[Span(t, Blank)..]))) == NonBlank(t[Span(t, Blank)..])
    requires forall w :: w in Flatten(Runs(t[Span(t, Blank)..])) ==> GoodWord(w)
    ensures Glue(Flatten(Runs(t))) == NonBlank(t)
    ensures forall w :: w in Flatten(Runs(t)) ==> GoodWord(w)
  {
    var n := Span(t, Blank);
    var tail := Runs(t[n..]);
    RunsSplit(t);
    FlattenCons(t[..n], tail);
    LowerPieces(t, n);
    GlueAppend(Pieces(LowerAll(t[..n])), Flatten(tail));
    NonBlankRun(t, n);
  }

  lemma LowerPieces(t: string, n: nat)
    requires n <= |t| && forall i :: 0 <= i < n ==> Plain(t[i])
    ensures Glue(Pieces(LowerAll(t[..n]))) == LowerAll(t[..n])
    ensures forall w :: w in Pieces(LowerAll(t[..n])) ==> GoodWord(w)
  {
    var r := LowerAll(t[..n]);
    forall i | 0 <= i < |r| ensures Plain(r[i]) && Lower(r[i]) == r[i] {
      assert r[i] == Lower(t[i]);
    }
    PiecesConserve(r);
  }

  lemma {:induction false} NonBlankRun(t: string, n: nat)
    requires n <= |t| && forall i :: 0 <= i < n ==> !Is(Blank, t[i])
    ensures NonBlank(t) == LowerAll(t[..n]) + NonBlank(t[n..])
  {
    if n == 0 {
      assert t[0..] == t;
    } else {
      NonBlankRun(t[1..], n - 1);
      assert t[1..][n - 1..] == t[n..];
      assert LowerAll(t[..n]) == [Lower(t[0])] + LowerAll(t[1..][..n - 1]);
    }
  }

  lemma {:induction false} PiecesConserve(r: string)
    requires forall i :: 0 <= i < |r| ==> Plain(r[i]) && Lower(r[i]) == r[i]
    ensures Glue(Pieces(r)) == r
    ensures forall w :: w in Pieces(r) ==> GoodWord(w)
    decreases |r|
  {
    if |r| > TOKEN_SIZE {
      PiecesConserve(r[TOKEN_SIZE..]);
      assert r == r[..TOKEN_SIZE] + r[TOKEN_SIZE..];
    } else if r != "" {
      assert Glue([r]) == r + Glue([]);
    }
  }

  lemma {:induction false} GlueAppend(a: seq<string>, b: seq<string>)
    ensures Glue(a + b) == Glue(a) + Glue(b)
  {
    if a == [] {
      assert a + b == b;
    } else {
      GlueAppend(a[1..], b);
      GlueCons(a[0], a[1..] + b);
      assert a + b == [a[0]] + (a[1..] + b);
      Assoc(a[0], Glue(a[1..]), Glue(b));
    }
  }

  lemma GlueCons(w: string, ws: seq<string>)
    ensures Glue([w] + ws) == w + Glue(ws)
  {
    assert ([w] + ws)[1..] == ws;
  }

  /** Tokenizing is idempotent: the words of a line, written out again, have the same words. */
  lemma WordsIdempotent(s: string)
    ensures WordsOf(Join(WordsOf(s))) == WordsOf(s)
  {
    WordsConserve(s);
    JoinRoundTrip(WordsOf(s));
  }

  // ---------------------------------------------------------------- in plain characters

  /** No character of `a` ends a line. */
  predicate NoEnd(a: string) {
    forall i :: 0 <= i < |a| ==> a[i] != '#' && a[i] != '\n' && a[i] != '\0'
  }

  lemma StopIs(c: char)
    ensures Is(Stop, c) <==> c == '#' || c == '\n' || c == '\0'
    ensures Is(Blank, c) <==> c == ' ' || c == '\t'
    ensures Plain(c) <==> c != '#' && c != '\n' && c != '\0' && c != ' ' && c != '\t'
  {
  }

  lemma StopHides(a: string, c: char, b: string)
    requires NoEnd(a) && Is(Stop, c)
    ensures Visible(a + [c] + b) == a && Visible(a) == a
  {
    var s := a + [c] + b;
    assert forall i :: 0 <= i < |a| ==> s[i] == a[i];
    assert s[|a|] == c;
    assert Span(s, Stop) == |a| == Span(a, Stop);
  }

  /** A '#', a newline or a NUL ends the line: what follows does not matter. */
  lemma EndsLine(a: string, b: string)
    requires NoEnd(a)
    ensures WordsOf(a + "#" + b) == WordsOf(a + "\n" + b) == WordsOf(a + "\0" + b) == WordsOf(a)
  {
    StopHides(a, '#', b);
    StopHides(a, '\n', b);
    StopHides(a, '\0', b);
    assert "#" == ['#'] && "\n" == ['\n'] && "\0" == ['\0'];
  }

  /** A blank or a tab separates words. */
  lemma Separates(a: string, b: string)
    requires NoEnd(a)
    ensures WordsOf(a + " " + b) == WordsOf(a + "\t" + b) == WordsOf(a) + WordsOf(b)
  {
    BlankBetween(a, ' ', b);
    BlankBetween(a, '\t', b);
    assert " " == [' '] && "\t" == ['\t'];
  }

  lemma BlankBetween(a: string, c: char, b: string)
    requires NoEnd(a) && Is(Blank, c)
    ensures WordsOf(a + [c] + b) == WordsOf(a) + WordsOf(b)
  {
    var s := a + [c] + b;
    StopIs(c);
    VisibleTail(s, |a| + 1) by {
      forall j | 0 <= j < |a| + 1 ensures !Is(Stop, s[j]) {
        assert s[j] == if j < |a| then a[j] else c;
      }
    }
    assert s[..|a| + 1] == a + [c] && s[|a| + 1..] == b;
    assert Visible(a) == a by { assert Span(a, Stop) == |a|; }
    RunsBetween(a, c, Visible(b));
    FlattenAppend(Runs(a), Runs(Visible(b)));
  }

  lemma {:induction false} RunsBetween(a: string, c: char, v: string)
    requires Is(Blank, c)
    ensures Runs(a + [c] + v) == Runs(a) + Runs(v)
    decreases |a|
  {
    var s := a + [c] + v;
    if a == "" {
      assert s[1..] == v;
    } else if Is(Blank, a[0]) {
      assert s[1..] == a[1..] + [c] + v;
      RunsBetween(a[1..], c, v);
    } else {
      var n := Span(a, Blank);
      assert forall i :: 0 <= i < |a| ==> s[i] == a[i];
      assert s[|a|] == c;
      assert Span(s, Blank) == n;
      assert s[..n] == a[..n] && s[n..] == a[n..] + [c] + v;
      RunsBetween(a[n..], c, v);
      RunsSplit(s);
      RunsSplit(a);
      Assoc([a[..n]], Runs(a[n..]), Runs(v));
    }
  }

  lemma {:induction false} FlattenAppend(a: seq<string>, b: seq<string>)
    ensures Flatten(a + b) == Flatten(a) + Flatten(b)
  {
    hide Pieces, LowerAll;
    if a == [] {
      assert a + b == b;
    } else {
      FlattenAppend(a[1..], b);
      FlattenCons(a[0], a[1..] + b);
      assert a + b == [a[0]] + (a[1..] + b);
      Assoc(Pieces(LowerAll(a[0])), Flatten(a[1..]), Flatten(b));
    }
  }

  /** `t` is `s` with some of its capital letters made small. */
  predicate MadeSmall(s: string, t: string) {
    |s| == |t| && forall i :: 0 <= i < |s| ==> t[i] == s[i] || ('A' <= s[i] <= 'Z' && t[i] == s[i] - 'A' + 'a')
  }

  lemma SmallAlike(c: char, d: char)
    requires d == c || ('A' <= c <= 'Z' && d == c - 'A' + 'a')
    ensures Lower(c) == Lower(d) && Is(Blank, c) == Is(Blank, d) && Is(Stop, c) == Is(Stop, d)
  {
  }

  lemma {:induction false} SpanAlike(s: string, t: string, k: Kind)
    requires MadeSmall(s, t) && k != Nul
    ensures Span(s, k) == Span(t, k)
  {
    if s != "" {
      SmallAlike(s[0], t[0]);
      SpanAlike(s[1..], t[1..], k);
    }
  }

  /** The case of letters does not matter. */
  lemma CaseIrrelevant(s: string, t: string)
    requires MadeSmall(s, t)
    ensures WordsOf(s) == WordsOf(t)
  {
    SpanAlike(s, t, Stop);
    RunsAlike(Visible(s), Visible(t));
  }

  lemma {:induction false} RunsAlike(s: string, t: string)
    requires MadeSmall(s, t)
    ensures Flatten(Runs(s)) == Flatten(Runs(t))
    decreases |s|
  {
    if s != "" {
      SmallAlike(s[0], t[0]);
      if Is(Blank, s[0]) {
        RunsAlike(s[1..], t[1..]);
      } else {
        var n := Span(s, Blank);
        SpanAlike(s, t, Blank);
        RunsAlike(s[n..], t[n..]);
        RunsSplit(s);
        RunsSplit(t);
        FlattenCons(s[..n], Runs(s[n..]));
        FlattenCons(t[..n], Runs(t[n..]));
        assert LowerAll(s[..n]) == LowerAll(t[..n]) by {
          forall i | 0 <= i < n ensures Lower(s[i]) == Lower(t[i]) { SmallAlike(s[i], t[i]); }
        }
      }
    }
  }

  /** Words are short, small, and have neither blanks nor ends of line in them. */
  lemma WordShape(s: string, w: string)
    requires w in WordsOf(s)
    ensures 1 <= |w| <= 42
    ensures forall i :: 0 <= i < |w| ==> !('A' <= w[i] <= 'Z') && w[i] !in [' ', '\t', '\n', '#', '\0']
  {
    WordsConserve(s);
    hide WordsOf;
    assert GoodWord(w);
  }

  /** Text without such characters is one word as it stands, up to 42 characters; a longer one is cut there. */
  lemma PlainText(w: string)
    requires w != ""
    requires forall i :: 0 <= i < |w| ==> !('A' <= w[i] <= 'Z') && w[i] !in [' ', '\t', '\n', '#', '\0']
    ensures if |w| <= 42 then WordsOf(w) == [w] else WordsOf(w) == [w[..42]] + WordsOf(w[42..])
  {
    var n := if |w| <= 42 then |w| else 42;
    FirstWord(w, n);
    assert LowerAll(w[..n]) == w[..n];
    if |w| <= 42 {
      assert w[..n] == w && w[n..] == "";
      NothingLeft("");
    }
  }
}
