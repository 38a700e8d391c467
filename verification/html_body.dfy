/**
 * `text_to_html`: a plain-text draft body becomes one HTML paragraph per
 * blank-line-separated chunk. The text is escaped first (`html.escape`), then
 * cut at every "\n\n", each remaining newline becomes a "<br>" line break,
 * each chunk is wrapped in a styled `<p>` element, and the elements are
 * joined with single newlines.
 */
module HtmlBody {

  // ---------------------------------------------------------------------------
  // Text helpers

  predicate StartsWith(s: string, prefix: string)
  {
    |prefix| <= |s| && s[..|prefix|] == prefix
  }

  /** Python's `sep.join(parts)`. */
  function JoinWith(parts: seq<string>, sep: string): string
  {
    if parts == [] then ""
    else if |parts| == 1 then parts[0]
    else parts[0] + sep + JoinWith(parts[1..], sep)
  }

  // ---------------------------------------------------------------------------
  // Escaping

  /**
   * One character under `html.escape(s, quote=True)`. The library replaces
   * '&' first and then '<', '>', '"' and '\''; since no replacement text
   * holds a character replaced later, that is the same as escaping each
   * character on its own.
   */
  function EscapeChar(c: char): string
  {
    if c == '&' then "&amp;"
    else if c == '<' then "&lt;"
    else if c == '>' then "&gt;"
    else if c == '"' then "&quot;"
    else if c == '\'' then "&#x27;"
    else [c]
  }

  /** The five entities `html.escape` writes. */
  predicate IsEntityAt(s: string, i: nat)
    requires i <= |s|
  {
    var rest := s[i..];
    StartsWith(rest, "&amp;") || StartsWith(rest, "&lt;") || StartsWith(rest, "&gt;") ||
    StartsWith(rest, "&quot;") || StartsWith(rest, "&#x27;")
  }

  /** No character that HTML would read as markup or as the end of an attribute value. */
  predicate NoRawMarkup(s: string)
  {
    forall i :: 0 <= i < |s| ==> s[i] != '<' && s[i] != '>' && s[i] != '"' && s[i] != '\''
  }

  /** Every '&' is the start of one of the entities. */
  predicate AmpersandsStartEntities(s: string)
  {
    forall i :: 0 <= i < |s| && s[i] == '&' ==> IsEntityAt(s, i)
  }

  lemma EntityShifts(head: string, tail: string, i: nat)
    requires i < |tail| && IsEntityAt(tail, i)
    ensures IsEntityAt(head + tail, |head| + i)
  {
    assert (head + tail)[|head| + i..] == tail[i..];
  }

  /** `html.escape(s)`. */
  function Escape(s: string): (r: string)
    ensures NoRawMarkup(r)
    ensures AmpersandsStartEntities(r)
  {
    if s == [] then []
    else
      var head, tail := EscapeChar(s[0]), Escape(s[1..]);
      EscapedCharIsSafe(s[0]);
      SafeTextsConcatenate(head, tail);
      head + tail
  }

  /** A single escaped character holds no raw markup, and its only '&' starts its entity. */
  lemma EscapedCharIsSafe(c: char)
    ensures NoRawMarkup(EscapeChar(c))
    ensures AmpersandsStartEntities(EscapeChar(c))
  {
    var e := EscapeChar(c);
    if c == '&' {
      assert StartsWith(e[0..], "&amp;");
      EntityIsSafe(e);
    } else if c == '<' {
      assert StartsWith(e[0..], "&lt;");
      EntityIsSafe(e);
    } else if c == '>' {
      assert StartsWith(e[0..], "&gt;");
      EntityIsSafe(e);
    } else if c == '"' {
      assert StartsWith(e[0..], "&quot;");
      EntityIsSafe(e);
    } else if c == '\'' {
      assert StartsWith(e[0..], "&#x27;");
      EntityIsSafe(e);
    }
  }

  /** An entity: '&' only at its start, and no raw markup anywhere. */
  lemma EntityIsSafe(e: string)
    requires |e| >= 1 && e[0] == '&' && IsEntityAt(e, 0)
    requires forall j :: 1 <= j < |e| ==> e[j] != '&' && e[j] != '<' && e[j] != '>' && e[j] != '"' && e[j] != '\''
    ensures NoRawMarkup(e) && AmpersandsStartEntities(e)
  {
  }

  /** Both properties survive putting two such texts one after the other. */
  lemma SafeTextsConcatenate(a: string, b: string)
    requires NoRawMarkup(a) && AmpersandsStartEntities(a)
    requires NoRawMarkup(b) && AmpersandsStartEntities(b)
    ensures NoRawMarkup(a + b) && AmpersandsStartEntities(a + b)
  {
    var s := a + b;
    forall i | 0 <= i < |s| && s[i] == '&' ensures IsEntityAt(s, i) {
      if i < |a| {
        assert s[i..] == a[i..] + b;
        assert a[i] == '&';
        EntityExtends(a[i..], b);
      } else {
        assert s[i] == b[i - |a|];
        EntityShifts(a, b, i - |a|);
      }
    }
  }

  /** An entity at the front of a text stays there when more text follows. */
  lemma EntityExtends(a: string, b: string)
    requires IsEntityAt(a, 0)
    ensures IsEntityAt(a + b, 0)
  {
    assert a[0..] == a;
    assert (a + b)[0..] == a + b;
    forall e: string | StartsWith(a, e) ensures StartsWith(a + b, e) {
      assert (a + b)[..|e|] == a[..|e|];
    }
  }

  /** The inverse of `Escape`: each of the five entities back to its character. */
  function Unescape(s: string): string
    decreases |s|
  {
    if s == [] then []
    else if StartsWith(s, "&amp;") then "&" + Unescape(s[5..])
    else if StartsWith(s, "&lt;") then "<" + Unescape(s[4..])
    else if StartsWith(s, "&gt;") then ">" + Unescape(s[4..])
    else if StartsWith(s, "&quot;") then "\"" + Unescape(s[6..])
    else if StartsWith(s, "&#x27;") then "'" + Unescape(s[6..])
    else [s[0]] + Unescape(s[1..])
  }

  /** Unescaping an escaped character, then the rest, gives the character back first. */
  lemma UnescapeFront(c: char, tail: string)
    ensures Unescape(EscapeChar(c) + tail) == [c] + Unescape(tail)
  {
    if c == '&' {
      UnescapeAmp(tail);
    } else if c == '<' {
      UnescapeLt(tail);
    } else if c == '>' {
      UnescapeGt(tail);
    } else if c == '"' {
      UnescapeQuot(tail);
    } else if c == '\'' {
      UnescapeApos(tail);
    } else {
      UnescapePlain(c, tail);
    }
  }

  lemma UnescapeAmp(tail: string)
    ensures Unescape("&amp;" + tail) == "&" + Unescape(tail)
  {
    var s := "&amp;" + tail;
    PrefixThenRest("&amp;", tail);
  }

  lemma UnescapeLt(tail: string)
    ensures Unescape("&lt;" + tail) == "<" + Unescape(tail)
  {
    var s := "&lt;" + tail;
    PrefixThenRest("&lt;", tail);
    DiffersAt(s, "&amp;", 1);
  }

  lemma UnescapeGt(tail: string)
    ensures Unescape("&gt;" + tail) == ">" + Unescape(tail)
  {
    var s := "&gt;" + tail;
    PrefixThenRest("&gt;", tail);
    DiffersAt(s, "&amp;", 1);
    DiffersAt(s, "&lt;", 1);
  }

  lemma UnescapeQuot(tail: string)
    ensures Unescape("&quot;" + tail) == "\"" + Unescape(tail)
  {
    var s := "&quot;" + tail;
    PrefixThenRest("&quot;", tail);
    DiffersAt(s, "&amp;", 1);
    DiffersAt(s, "&lt;", 1);
    DiffersAt(s, "&gt;", 1);
  }

  lemma UnescapeApos(tail: string)
    ensures Unescape("&#x27;" + tail) == "'" + Unescape(tail)
  {
    var s := "&#x27;" + tail;
    PrefixThenRest("&#x27;", tail);
    DiffersAt(s, "&amp;", 1);
    DiffersAt(s, "&lt;", 1);
    DiffersAt(s, "&gt;", 1);
    DiffersAt(s, "&quot;", 1);
  }

  lemma UnescapePlain(c: char, tail: string)
    requires c != '&'
    ensures Unescape([c] + tail) == [c] + Unescape(tail)
  {
    var s := [c] + tail;
    assert s[0] == c && s[1..] == tail;
    DiffersAt(s, "&amp;", 0);
    DiffersAt(s, "&lt;", 0);
    DiffersAt(s, "&gt;", 0);
    DiffersAt(s, "&quot;", 0);
    DiffersAt(s, "&#x27;", 0);
  }

  /** A text starts with `prefix` and goes on with `tail`. */
  lemma PrefixThenRest(prefix: string, tail: string)
    ensures StartsWith(prefix + tail, prefix) && (prefix + tail)[|prefix|..] == tail
  {
    assert (prefix + tail)[..|prefix|] == prefix;
  }

  /** One differing character rules a prefix out. */
  lemma DiffersAt(s: string, prefix: string, j: nat)
    requires j < |s| && j < |prefix| && s[j] != prefix[j]
    ensures !StartsWith(s, prefix)
  {
    if |prefix| <= |s| {
      assert s[..|prefix|][j] == s[j];
    }
  }

  /** Escaping loses nothing: the original text can be read back. */
  lemma {:induction false} EscapeRoundTrip(s: string)
    ensures Unescape(Escape(s)) == s
  {
    if s != [] {
      EscapeRoundTrip(s[1..]);
      UnescapeFront(s[0], Escape(s[1..]));
      assert s == [s[0]] + s[1..];
    }
  }

  // ---------------------------------------------------------------------------
  // Splitting at blank lines

  /** No "\n\n" anywhere in `s`. */
  predicate NoBlankLine(s: string)
  {
    forall i :: 0 <= i < |s| - 1 ==> !(s[i] == '\n' && s[i + 1] == '\n')
  }

  /**
   * `s.split('\n\n')`: cut at each leftmost, non-overlapping "\n\n". The
   * first piece is always a prefix of `s`.
   */
  function SplitParagraphs(s: string): (r: seq<string>)
    ensures |r| >= 1
    ensures |r[0]| <= |s| && s[..|r[0]|] == r[0]
    decreases |s|
  {
    if |s| < 2 then [s]
    else if s[0] == '\n' && s[1] == '\n' then [""] + SplitParagraphs(s[2..])
    else
      var rest := SplitParagraphs(s[1..]);
      [[s[0]] + rest[0]] + rest[1..]
  }

  /** Joining the pieces with "\n\n" gives back the text they were cut from. */
  lemma {:induction false} SplitJoinRoundTrip(s: string)
    ensures JoinWith(SplitParagraphs(s), "\n\n") == s
    decreases |s|
  {
    if |s| < 2 {
    } else if s[0] == '\n' && s[1] == '\n' {
      SplitJoinRoundTrip(s[2..]);
      JoinEmptyFirst(SplitParagraphs(s[2..]), "\n\n");
      assert s == "\n\n" + s[2..];
    } else {
      SplitJoinRoundTrip(s[1..]);
      JoinExtendsFirst(s[0], SplitParagraphs(s[1..]), "\n\n");
      assert s == [s[0]] + s[1..];
    }
  }

  /** An empty first part contributes only its separator. */
  lemma JoinEmptyFirst(parts: seq<string>, sep: string)
    requires parts != []
    ensures JoinWith([""] + parts, sep) == sep + JoinWith(parts, sep)
  {
    assert ([""] + parts)[1..] == parts;
  }

  /** A character put in front of the first part comes first in the joined text. */
  lemma JoinExtendsFirst(c: char, parts: seq<string>, sep: string)
    requires parts != []
    ensures JoinWith([[c] + parts[0]] + parts[1..], sep) == [c] + JoinWith(parts, sep)
  {
    var r := [[c] + parts[0]] + parts[1..];
    if |parts| > 1 {
      assert r[1..] == parts[1..];
    }
  }

  /** A first piece reaches at least as far as the text's leading run without newlines. */
  lemma {:induction false} FirstPieceReaches(s: string, m: nat)
    requires m <= |s| && forall i :: 0 <= i < m ==> s[i] != '\n'
    ensures |SplitParagraphs(s)[0]| >= m
    decreases |s|
  {
    if m > 0 && |s| >= 2 {
      FirstPieceReaches(s[1..], m - 1);
    }
  }

  /** How the pieces of a text that does not open with "\n\n" relate to those of its tail. */
  lemma SplitUnfolds(s: string)
    requires |s| >= 2 && !(s[0] == '\n' && s[1] == '\n')
    ensures var r, rest := SplitParagraphs(s), SplitParagraphs(s[1..]);
            && |r| == |rest|
            && r[0] == [s[0]] + rest[0]
            && (forall k :: 1 <= k < |r| ==> r[k] == rest[k])
            && s[1..][..|rest[0]|] == rest[0]
  {
  }

  /** No piece holds "\n\n". */
  lemma {:induction false} PiecesHaveNoBlankLine(s: string)
    ensures forall k :: 0 <= k < |SplitParagraphs(s)| ==> NoBlankLine(SplitParagraphs(s)[k])
    decreases |s|
  {
    if |s| < 2 {
    } else if s[0] == '\n' && s[1] == '\n' {
      PiecesHaveNoBlankLine(s[2..]);
      assert SplitParagraphs(s)[1..] == SplitParagraphs(s[2..]);
    } else {
      PiecesHaveNoBlankLine(s[1..]);
      SplitUnfolds(s);
      var rest := SplitParagraphs(s[1..]);
      var first := [s[0]] + rest[0];
      forall i | 0 <= i < |first| - 1 ensures !(first[i] == '\n' && first[i + 1] == '\n') {
        if i == 0 {
          assert first[1] == s[1];
        } else {
          assert first[i] == rest[0][i - 1] && first[i + 1] == rest[0][i];
        }
      }
    }
  }

  /** A piece that is cut off by a "\n\n" after it. */
  predicate EndsCleanly(piece: string)
  {
    piece == "" || piece[|piece| - 1] != '\n'
  }

  /**
   * The cut is always the leftmost "\n\n": every piece but the last is empty
   * or does not end with a newline, so a run of three newlines leaves its
   * stray newline at the front of the next piece.
   */
  lemma {:induction false} PiecesEndCleanly(s: string)
    ensures forall k :: 0 <= k < |SplitParagraphs(s)| - 1 ==> EndsCleanly(SplitParagraphs(s)[k])
    decreases |s|
  {
    if |s| < 2 {
    } else if s[0] == '\n' && s[1] == '\n' {
      PiecesEndCleanly(s[2..]);
      var r := SplitParagraphs(s);
      assert r[1..] == SplitParagraphs(s[2..]);
      forall k | 1 <= k < |r| - 1 ensures EndsCleanly(r[k]) {
        assert r[k] == SplitParagraphs(s[2..])[k - 1];
      }
    } else {
      PiecesEndCleanly(s[1..]);
      SplitUnfolds(s);
      var r, rest := SplitParagraphs(s), SplitParagraphs(s[1..]);
      if |rest| > 1 && rest[0] == "" {
        EmptyFirstPieceMeansBlankLine(s[1..]);
      }
      assert |r| > 1 ==> EndsCleanly(r[0]);
    }
  }

  /** Three newlines: the cut takes the first two, and the third opens the next piece. */
  lemma StrayNewlineOpensNextPiece()
    ensures SplitParagraphs("\n\n\n") == ["", "\n"]
  {
    assert "\n\n\n"[2..] == "\n";
  }

  /** An empty first piece followed by more pieces means the text opens with "\n\n". */
  lemma EmptyFirstPieceMeansBlankLine(t: string)
    requires |SplitParagraphs(t)| > 1 && SplitParagraphs(t)[0] == ""
    ensures |t| >= 2 && t[0] == '\n' && t[1] == '\n'
  {
  }

  /** A piece holds only characters of the text, so a text without raw markup gives pieces without it. */
  lemma {:induction false} PiecesHaveNoRawMarkup(s: string)
    requires NoRawMarkup(s)
    ensures forall k :: 0 <= k < |SplitParagraphs(s)| ==> NoRawMarkup(SplitParagraphs(s)[k])
    decreases |s|
  {
    if |s| < 2 {
    } else if s[0] == '\n' && s[1] == '\n' {
      SuffixKeepsProperties(s, 2);
      PiecesHaveNoRawMarkup(s[2..]);
      assert SplitParagraphs(s)[1..] == SplitParagraphs(s[2..]);
    } else {
      SuffixKeepsProperties(s, 1);
      PiecesHaveNoRawMarkup(s[1..]);
      SplitUnfolds(s);
      var rest := SplitParagraphs(s[1..]);
      var first := [s[0]] + rest[0];
      forall i | 0 <= i < |first| ensures first[i] == s[i] {
        if i > 0 {
          assert first[i] == rest[0][i - 1] == s[1..][i - 1];
        }
      }
    }
  }

  /** Cutting at "\n\n" never cuts through an entity. */
  lemma {:induction false} PiecesKeepEntities(s: string)
    requires AmpersandsStartEntities(s)
    ensures forall k :: 0 <= k < |SplitParagraphs(s)| ==> AmpersandsStartEntities(SplitParagraphs(s)[k])
    decreases |s|
  {
    if |s| < 2 {
    } else if s[0] == '\n' && s[1] == '\n' {
      SuffixKeepsProperties(s, 2);
      PiecesKeepEntities(s[2..]);
      assert SplitParagraphs(s)[1..] == SplitParagraphs(s[2..]);
    } else {
      SuffixKeepsProperties(s, 1);
      PiecesKeepEntities(s[1..]);
      SplitUnfolds(s);
      FirstPieceKeepsEntities(s);
    }
  }

  /** The first piece of a text that does not open with "\n\n" keeps its entities whole. */
  lemma FirstPieceKeepsEntities(s: string)
    requires |s| >= 2 && !(s[0] == '\n' && s[1] == '\n')
    requires AmpersandsStartEntities(s) && AmpersandsStartEntities(SplitParagraphs(s[1..])[0])
    ensures AmpersandsStartEntities([s[0]] + SplitParagraphs(s[1..])[0])
  {
    var rest := SplitParagraphs(s[1..]);
    var first := [s[0]] + rest[0];
    forall i | 0 <= i < |first| && first[i] == '&' ensures IsEntityAt(first, i) {
      if i > 0 {
        assert first[i] == rest[0][i - 1];
        EntityShifts([s[0]], rest[0], i - 1);
      } else {
        EntityStaysInFirstPiece(s);
      }
    }
  }

  lemma SuffixKeepsProperties(s: string, n: nat)
    requires n <= |s|
    ensures NoRawMarkup(s) ==> NoRawMarkup(s[n..])
    ensures AmpersandsStartEntities(s) ==> AmpersandsStartEntities(s[n..])
  {
    if AmpersandsStartEntities(s) {
      forall i | 0 <= i < |s[n..]| && s[n..][i] == '&' ensures IsEntityAt(s[n..], i) {
        assert s[n..][i..] == s[n + i..];
        assert IsEntityAt(s, n + i);
      }
    }
  }

  /** An entity at the very start of a text that does not open with "\n\n" lies whole in its first piece. */
  lemma EntityStaysInFirstPiece(s: string)
    requires |s| >= 2 && !(s[0] == '\n' && s[1] == '\n')
    requires s[0] == '&' && IsEntityAt(s, 0)
    ensures IsEntityAt([s[0]] + SplitParagraphs(s[1..])[0], 0)
  {
    var first := [s[0]] + SplitParagraphs(s[1..])[0];
    assert s[0..] == s && first[0..] == first;
    if StartsWith(s, "&amp;") {
      PrefixStaysInFirstPiece(s, "&amp;");
    } else if StartsWith(s, "&lt;") {
      PrefixStaysInFirstPiece(s, "&lt;");
    } else if StartsWith(s, "&gt;") {
      PrefixStaysInFirstPiece(s, "&gt;");
    } else if StartsWith(s, "&quot;") {
      PrefixStaysInFirstPiece(s, "&quot;");
    } else {
      PrefixStaysInFirstPiece(s, "&#x27;");
    }
  }

  lemma PrefixStaysInFirstPiece(s: string, e: string)
    requires |s| >= 2 && !(s[0] == '\n' && s[1] == '\n')
    requires 1 <= |e| && StartsWith(s, e) && '\n' !in e
    ensures StartsWith([s[0]] + SplitParagraphs(s[1..])[0], e)
  {
    var rest := SplitParagraphs(s[1..]);
    forall i | 0 <= i < |e| - 1 ensures s[1..][i] != '\n' {
      assert s[1..][i] == s[..|e|][i + 1] == e[i + 1];
    }
    FirstPieceReaches(s[1..], |e| - 1);
    var first := [s[0]] + rest[0];
    assert s[1..][..|rest[0]|] == rest[0];
    assert first[..|e|] == s[..|e|];
  }

  // ---------------------------------------------------------------------------
  // Line breaks

  /** `p.replace('\n', '<br>\n')`. */
  function Breaks(p: string): string
  {
    if p == [] then []
    else (if p[0] == '\n' then "<br>\n" else [p[0]]) + Breaks(p[1..])
  }

  /** The inverse of `Breaks` on text without '<': each "<br>\n" back to "\n". */
  function Unbreak(s: string): string
    decreases |s|
  {
    if s == [] then []
    else if StartsWith(s, "<br>\n") then "\n" + Unbreak(s[5..])
    else [s[0]] + Unbreak(s[1..])
  }

  lemma {:induction false} BreaksRoundTrip(p: string)
    requires forall i :: 0 <= i < |p| ==> p[i] != '<'
    ensures Unbreak(Breaks(p)) == p
  {
    if p != [] {
      BreaksRoundTrip(p[1..]);
      var tail := Breaks(p[1..]);
      if p[0] == '\n' {
        assert ("<br>\n" + tail)[..5] == "<br>\n";
        assert ("<br>\n" + tail)[5..] == tail;
      } else {
        assert ([p[0]] + tail)[1..] == tail;
      }
      assert p == [p[0]] + p[1..];
    }
  }

  /** A line-broken text never begins with a newline. */
  lemma BreaksNeverStartWithNewline(p: string)
    ensures Breaks(p) == [] || Breaks(p)[0] != '\n'
  {
  }

  /** Every newline of `s` ends a "<br>\n": the four characters before it are "<br>". */
  predicate NewlinesFollowBreak(s: string)
  {
    forall i :: 0 <= i < |s| && s[i] == '\n' ==>
      4 <= i && s[i - 4] == '<' && s[i - 3] == 'b' && s[i - 2] == 'r' && s[i - 1] == '>'
  }

  /**
   * In a line-broken text every newline is the end of a "<br>\n", and no two
   * newlines are adjacent.
   */
  lemma {:induction false} BreaksMarkEveryNewline(p: string)
    ensures NoBlankLine(Breaks(p)) && NewlinesFollowBreak(Breaks(p))
  {
    if p != [] {
      BreaksMarkEveryNewline(p[1..]);
      BreaksNeverStartWithNewline(p[1..]);
      var tail := Breaks(p[1..]);
      var head := if p[0] == '\n' then "<br>\n" else [p[0]];
      assert Breaks(p) == head + tail;
      NoBlankLineConcatenates(head, tail);
      BreaksConcatenate(head, tail);
    }
  }

  /** No "\n\n" appears where the texts meet when the second does not open with a newline. */
  lemma NoBlankLineConcatenates(a: string, b: string)
    requires NoBlankLine(a) && NoBlankLine(b)
    requires b == [] || b[0] != '\n'
    ensures NoBlankLine(a + b)
  {
    var r := a + b;
    forall i | 0 <= i < |r| - 1 ensures !(r[i] == '\n' && r[i + 1] == '\n') {
      if i >= |a| {
        assert r[i] == b[i - |a|] && r[i + 1] == b[i + 1 - |a|];
      } else if i == |a| - 1 {
        assert r[i + 1] == b[0];
      } else {
        assert r[i] == a[i] && r[i + 1] == a[i + 1];
      }
    }
  }

  /** Marked newlines stay marked when two texts are put together. */
  lemma BreaksConcatenate(a: string, b: string)
    requires NewlinesFollowBreak(a) && NewlinesFollowBreak(b)
    ensures NewlinesFollowBreak(a + b)
  {
    var r := a + b;
    forall i | 0 <= i < |r| && r[i] == '\n'
      ensures 4 <= i && r[i - 4] == '<' && r[i - 3] == 'b' && r[i - 2] == 'r' && r[i - 1] == '>'
    {
      if i >= |a| {
        var j := i - |a|;
        assert b[j] == '\n';
        assert r[i - 4] == b[j - 4] && r[i - 3] == b[j - 3] && r[i - 2] == b[j - 2] && r[i - 1] == b[j - 1];
      } else {
        assert a[i] == '\n';
      }
    }
  }

  // ---------------------------------------------------------------------------
  // The HTML body

  const ParagraphOpen := "<p style=\"margin: 0 0 1em 0;\">"
  const ParagraphClose := "</p>"

  /** One chunk of escaped text as a paragraph element. */
  function Paragraph(piece: string): string
  {
    ParagraphOpen + Breaks(piece) + ParagraphClose
  }

  /** The escaped text's blank-line-separated chunks. */
  function Pieces(text: string): seq<string>
  {
    SplitParagraphs(Escape(text))
  }

  /** The HTML `text_to_html` returns: one paragraph element per chunk, joined by "\n". */
  function Html(text: string): string
  {
    var pieces := Pieces(text);
    JoinWith(seq(|pieces|, i requires 0 <= i < |pieces| => Paragraph(pieces[i])), "\n")
  }

  /** `text_to_html`. */
  method TextToHtml(text: string) returns (html: string)
    ensures html == Html(text)
    ensures text == "" ==> html == ParagraphOpen + ParagraphClose
  {
    var escaped := Escape(text);
    var paragraphs := SplitParagraphs(escaped);
    var htmlParagraphs: seq<string> := [];
    for i := 0 to |paragraphs|
      invariant |htmlParagraphs| == i
      invariant forall j :: 0 <= j < i ==> htmlParagraphs[j] == Paragraph(paragraphs[j])
    {
      var p := Breaks(paragraphs[i]);
      htmlParagraphs := htmlParagraphs + [ParagraphOpen + p + ParagraphClose];
    }
    assert htmlParagraphs == seq(|paragraphs|, i requires 0 <= i < |paragraphs| => Paragraph(paragraphs[i]));
    html := JoinWith(htmlParagraphs, "\n");
  }

  /**
   * What each paragraph element holds: a chunk of the escaped text with its
   * newlines marked as line breaks. The content has no "\n\n", each of its
   * newlines ends a "<br>\n", and the chunk it came from carries no "\n\n",
   * no raw '<', '>', '"' or '\'' and no '&' that does not start an entity.
   */
  lemma ParagraphContentIsSafe(text: string, k: nat)
    requires k < |Pieces(text)|
    ensures var content := Breaks(Pieces(text)[k]);
            && NoBlankLine(content)
            && NewlinesFollowBreak(content)
            && Unbreak(content) == Pieces(text)[k]
            && NoBlankLine(Pieces(text)[k])
            && NoRawMarkup(Pieces(text)[k])
            && AmpersandsStartEntities(Pieces(text)[k])
  {
    var piece := Pieces(text)[k];
    PiecesHaveNoBlankLine(Escape(text));
    PiecesHaveNoRawMarkup(Escape(text));
    PiecesKeepEntities(Escape(text));
    BreaksMarkEveryNewline(piece);
    BreaksRoundTrip(piece);
  }

  /**
   * Nothing of the text is lost: undoing the line breaks, re-joining the
   * chunks with "\n\n" and unescaping gives back the original text.
   */
  lemma HtmlKeepsText(text: string)
    ensures var pieces := Pieces(text);
            Unescape(JoinWith(seq(|pieces|, i requires 0 <= i < |pieces| => Unbreak(Breaks(pieces[i]))), "\n\n")) == text
  {
    var pieces := Pieces(text);
    PiecesHaveNoRawMarkup(Escape(text));
    forall i | 0 <= i < |pieces| ensures Unbreak(Breaks(pieces[i])) == pieces[i] {
      BreaksRoundTrip(pieces[i]);
    }
    assert seq(|pieces|, i requires 0 <= i < |pieces| => Unbreak(Breaks(pieces[i]))) == pieces;
    SplitJoinRoundTrip(Escape(text));
    EscapeRoundTrip(text);
  }
}
