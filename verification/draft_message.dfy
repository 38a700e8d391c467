/**
 * The raw message `create_draft` hands to Gmail: CRLF-terminated header lines
 * (To, an optional Cc, Subject, Content-Type), an empty line, then the HTML
 * body. This is the layout of section 2.1 of RFC 5322 (header fields, an
 * empty line, the body); `ParseMessage` reads that layout back, and the
 * lemmas show the draft reads back as the fields it was built from. The
 * base64url encoding of the result and the API call are left out.
 */
module DraftMessage {
  import opened Wrappers
  import HtmlBody

  const CRLF := "\r\n"
  const ContentTypeLine := "Content-Type: text/html; charset=UTF-8"

  /** The header lines of a draft, without their line ends. */
  function HeaderLines(to: string, subject: string, cc: Option<string>): seq<string>
  {
    ["To: " + to] + (if Present(cc) then ["Cc: " + cc.value] else []) + ["Subject: " + subject, ContentTypeLine]
  }

  /** Each line followed by CRLF. */
  function Lines(ls: seq<string>): string
  {
    if ls == [] then "" else ls[0] + CRLF + Lines(ls[1..])
  }

  /** `f"{headers}\r\n{html_body}"`. */
  function RawMessage(to: string, subject: string, htmlBody: string, cc: Option<string>): string
  {
    Lines(HeaderLines(to, subject, cc)) + CRLF + htmlBody
  }

  /** `create_draft` up to the encoding: the header text built with `+=`, then the converted body. */
  method BuildRawMessage(to: string, subject: string, body: string, cc: Option<string>)
    returns (raw: string)
    ensures raw == RawMessage(to, subject, HtmlBody.Html(body), cc)
  {
    var ccLines := if Present(cc) then ["Cc: " + cc.value] else [];
    var headers := "To: " + to + CRLF;
    if cc.Some? && cc.value != "" {
      headers := headers + ("Cc: " + cc.value + CRLF);
      LinesCons("Cc: " + cc.value, []);
      assert Lines(ccLines) == "Cc: " + cc.value + CRLF;
    }
    assert headers == "To: " + to + CRLF + Lines(ccLines);
    headers := headers + ("Subject: " + subject + CRLF + ContentTypeLine + CRLF);
    LinesAroundCc("To: " + to, ccLines, "Subject: " + subject, ContentTypeLine);
    assert headers == Lines(HeaderLines(to, subject, cc));
    var htmlBody := HtmlBody.TextToHtml(body);
    raw := headers + CRLF + htmlBody;
  }

  /** Header lines written out: each line, then CRLF, in order. */
  lemma LinesAroundCc(first: string, middle: seq<string>, subjectLine: string, typeLine: string)
    ensures Lines([first] + middle + [subjectLine, typeLine]) ==
            first + CRLF + Lines(middle) + (subjectLine + CRLF + typeLine + CRLF)
  {
    LinesCons(typeLine, []);
    assert [typeLine] + [] == [typeLine];
    LinesCons(subjectLine, [typeLine]);
    assert [subjectLine] + [typeLine] == [subjectLine, typeLine];
    LinesAppend(middle, [subjectLine, typeLine]);
    LinesCons(first, middle + [subjectLine, typeLine]);
    assert [first] + middle + [subjectLine, typeLine] == [first] + (middle + [subjectLine, typeLine]);
  }

  lemma LinesCons(line: string, ls: seq<string>)
    ensures Lines([line] + ls) == line + CRLF + Lines(ls)
  {
    assert ([line] + ls)[1..] == ls;
  }

  lemma {:induction false} LinesAppend(a: seq<string>, b: seq<string>)
    ensures Lines(a + b) == Lines(a) + Lines(b)
    decreases |a|
  {
    if a == [] {
      assert a + b == b;
    } else {
      assert (a + b)[1..] == a[1..] + b;
      LinesAppend(a[1..], b);
    }
  }

  // ---------------------------------------------------------------------------
  // Reading the layout back

  /** The position of the first CRLF in `s`, if any. */
  function LineEnd(s: string): (r: Option<nat>)
    ensures r.Some? ==> r.value + 2 <= |s| && s[r.value..r.value + 2] == CRLF
    ensures r.Some? ==> forall j :: 0 <= j < r.value ==> s[j] != '\r' || s[j + 1] != '\n'
    ensures r.None? ==> forall j :: 0 <= j < |s| - 1 ==> s[j] != '\r' || s[j + 1] != '\n'
  {
    if |s| < 2 then None
    else if s[0] == '\r' && s[1] == '\n' then Some(0)
    else
      match LineEnd(s[1..])
      case None => None
      case Some(k) => Some(k + 1)
  }

  /**
   * Splits a message into its header lines and its body: lines ended by CRLF
   * up to the first empty one; what follows the empty line is the body. A
   * text with no empty line has no header section and gives `None`.
   */
  function ParseMessage(raw: string): (r: Option<(seq<string>, string)>)
    decreases |raw|
  {
    match LineEnd(raw)
    case None => None
    case Some(k) =>
      if k == 0 then Some(([], raw[2..]))
      else
        match ParseMessage(raw[k + 2..])
        case None => None
        case Some(m) => Some(([raw[..k]] + m.0, m.1))
  }

  /** A line without CR, then CRLF: the first line end is right after the line. */
  lemma {:induction false} LineEndAfter(line: string, rest: string)
    requires '\r' !in line
    ensures LineEnd(line + CRLF + rest) == Some(|line|)
    decreases |line|
  {
    var s := line + CRLF + rest;
    if line == [] {
      assert s[0] == '\r' && s[1] == '\n';
    } else {
      assert s[0] == line[0];
      assert s[1..] == line[1..] + CRLF + rest;
      assert '\r' !in line[1..] by {
        forall j | 0 <= j < |line| - 1 ensures line[1..][j] != '\r' {
          assert line[1..][j] == line[j + 1];
        }
      }
      LineEndAfter(line[1..], rest);
    }
  }

  /** Non-empty lines without CR, an empty line, a body: parsing gives the lines and the body back. */
  lemma {:induction false} ParseLines(ls: seq<string>, body: string)
    requires forall i :: 0 <= i < |ls| ==> ls[i] != "" && '\r' !in ls[i]
    ensures ParseMessage(Lines(ls) + CRLF + body) == Some((ls, body))
    decreases |ls|
  {
    if ls == [] {
      ParseEmptyLine(body);
    } else {
      var rest := Lines(ls[1..]) + CRLF + body;
      assert Lines(ls) + CRLF + body == ls[0] + CRLF + rest;
      ParseLines(ls[1..], body);
      ParseOneLine(ls[0], rest);
      assert [ls[0]] + ls[1..] == ls;
    }
  }

  /** An empty line at the front ends the header section at once. */
  lemma ParseEmptyLine(body: string)
    ensures ParseMessage(CRLF + body) == Some(([], body))
  {
    LineEndAfter("", body);
    assert "" + CRLF + body == CRLF + body;
    assert (CRLF + body)[2..] == body;
  }

  /** A non-empty line without CR at the front becomes the first header line. */
  lemma ParseOneLine(line: string, rest: string)
    requires line != "" && '\r' !in line
    ensures ParseMessage(line + CRLF + rest) ==
            match ParseMessage(rest)
            case None => None
            case Some(m) => Some(([line] + m.0, m.1))
  {
    var raw := line + CRLF + rest;
    LineEndAfter(line, rest);
    var k := |line|;
    assert raw[..k] == line;
    assert raw[k + 2..] == rest;
  }

  /**
   * A draft whose To, Subject and Cc hold no CR reads back as its fields: the
   * first header line is To, a Cc line comes second exactly when `cc` is
   * given and non-empty, then Subject and the HTML Content-Type; everything
   * after the empty line is the HTML body.
   */
  lemma DraftReadsBack(to: string, subject: string, htmlBody: string, cc: Option<string>)
    requires '\r' !in to && '\r' !in subject
    requires cc.Some? ==> '\r' !in cc.value
    ensures ParseMessage(RawMessage(to, subject, htmlBody, cc)).Some?
    ensures var (lines, body) := ParseMessage(RawMessage(to, subject, htmlBody, cc)).value;
            && body == htmlBody
            && |lines| == (if Present(cc) then 4 else 3)
            && lines[0] == "To: " + to
            && (Present(cc) ==> lines[1] == "Cc: " + cc.value)
            && lines[|lines| - 2] == "Subject: " + subject
            && lines[|lines| - 1] == "Content-Type: text/html; charset=UTF-8"
  {
    var ls := HeaderLines(to, subject, cc);
    HeaderLinesAreClean(to, subject, cc);
    ParseLines(ls, htmlBody);
  }

  /** Every header line has text, and none holds a CR when the fields hold none. */
  lemma HeaderLinesAreClean(to: string, subject: string, cc: Option<string>)
    requires '\r' !in to && '\r' !in subject
    requires cc.Some? ==> '\r' !in cc.value
    ensures forall i :: 0 <= i < |HeaderLines(to, subject, cc)| ==>
              HeaderLines(to, subject, cc)[i] != "" && '\r' !in HeaderLines(to, subject, cc)[i]
  {
    var ls := HeaderLines(to, subject, cc);
    assert '\r' !in ContentTypeLine;
    assert |ContentTypeLine| > 0;
    forall i | 0 <= i < |ls| ensures ls[i] != "" && '\r' !in ls[i] {
      if Present(cc) {
        assert ls == ["To: " + to, "Cc: " + cc.value, "Subject: " + subject, ContentTypeLine];
      } else {
        assert ls == ["To: " + to, "Subject: " + subject, ContentTypeLine];
      }
    }
  }
}
