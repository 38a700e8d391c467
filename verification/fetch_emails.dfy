/**
 * The shaping `fetch_emails` does for each fetched message: a dictionary of
 * its headers, the choice of a plain-text body, and the stored record with
 * its defaults and its body cut to 5000 characters. `decode` stands for
 * base64url decoding followed by UTF-8 decoding.
 */
module FetchEmails {
  import opened Wrappers
  import opened MessageParts

  // ---------------------------------------------------------------------------
  // Headers

  /** `{h['name']: h['value'] for h in headers}`: later headers overwrite earlier ones. */
  function HeaderMap(headers: seq<Header>): (m: map<string, string>)
    ensures m.Keys == set i | 0 <= i < |headers| :: headers[i].name
  {
    if headers == [] then map[]
    else
      var n := |headers| - 1;
      var m := HeaderMap(headers[..n]);
      assert forall i :: 0 <= i < n ==> headers[..n][i] == headers[i];
      m[headers[n].name := headers[n].value]
  }

  /** `headers.get(name, '')`. */
  function Get(m: map<string, string>, name: string): string
  {
    if name in m then m[name] else ""
  }

  /** The value stored under a name is the one its last header carries. */
  lemma {:induction false} LastHeaderWins(headers: seq<Header>, i: nat)
    requires i < |headers|
    requires forall j :: i < j < |headers| ==> headers[j].name != headers[i].name
    ensures HeaderMap(headers)[headers[i].name] == headers[i].value
  {
    var n := |headers| - 1;
    if i < n {
      assert headers[..n][i] == headers[i];
      LastHeaderWins(headers[..n], i);
    }
  }

  /**
   * Reading a header from the map gives the value of the last header of that
   * name, and "" when the message has none (as for a missing From, To,
   * Subject or Date).
   */
  lemma HeaderLookup(headers: seq<Header>, name: string)
    ensures (forall i :: 0 <= i < |headers| ==> headers[i].name != name) ==>
              Get(HeaderMap(headers), name) == ""
    ensures forall i :: 0 <= i < |headers| && headers[i].name == name &&
                        (forall j :: i < j < |headers| ==> headers[j].name != name) ==>
              Get(HeaderMap(headers), name) == headers[i].value
  {
    forall i | 0 <= i < |headers| && headers[i].name == name &&
               (forall j :: i < j < |headers| ==> headers[j].name != name)
      ensures Get(HeaderMap(headers), name) == headers[i].value
    {
      LastHeaderWins(headers, i);
    }
  }

  // ---------------------------------------------------------------------------
  // Body selection

  /** A `text/plain` part that carries inline data. */
  predicate IsPlainText(p: Part)
  {
    p.mimeType == "text/plain" && p.body.data != ""
  }

  /** The position of the first plain-text part with data, if there is one. */
  function FirstPlainText(parts: seq<Part>): (r: Option<nat>)
    ensures r.Some? ==> r.value < |parts| && IsPlainText(parts[r.value]) &&
                        forall j :: 0 <= j < r.value ==> !IsPlainText(parts[j])
    ensures r.None? ==> forall j :: 0 <= j < |parts| ==> !IsPlainText(parts[j])
  {
    if parts == [] then None
    else if IsPlainText(parts[0]) then Some(0)
    else
      match FirstPlainText(parts[1..])
      case None => None
      case Some(i) => Some(i + 1)
  }

  /**
   * The body `fetch_emails` reads: the payload's own data when it has any,
   * otherwise the data of its first plain-text part, otherwise "".
   */
  function MessageBody(payload: Part, decode: string -> string): string
  {
    if payload.body.data != "" then decode(payload.body.data)
    else
      match FirstPlainText(payload.parts)
      case Some(i) => decode(payload.parts[i].body.data)
      case None => ""
  }

  /** The body-selection loop of `fetch_emails`, which stops at the first plain-text part. */
  method SelectBody(payload: Part, decode: string -> string) returns (body: string)
    ensures body == MessageBody(payload, decode)
  {
    body := "";
    if payload.body.data != "" {
      body := decode(payload.body.data);
    } else {
      for i := 0 to |payload.parts|
        invariant forall j :: 0 <= j < i ==> !IsPlainText(payload.parts[j])
      {
        var part := payload.parts[i];
        if part.mimeType == "text/plain" && part.body.data != "" {
          body := decode(part.body.data);
          return;
        }
      }
    }
  }

  // ---------------------------------------------------------------------------
  // The stored record

  /** How many characters of a body are kept. */
  const BodyLimit := 5000

  /** `s[:n]`. */
  function Truncate(s: string, n: nat): (r: string)
    ensures |r| == if |s| <= n then |s| else n
    ensures r == s[..|r|]
  {
    if |s| <= n then s else s[..n]
  }

  /** A message as `get(format='full')` returns it; a missing snippet or label list is empty. */
  datatype FullMessage = FullMessage(payload: Part, snippet: string, labelIds: seq<string>)

  /** One entry of the list `fetch_emails` saves. */
  datatype Email = Email(
    id: string,
    threadId: string,
    from: string,
    to: string,
    subject: string,
    date: string,
    snippet: string,
    body: string,
    labels: seq<string>)

  /**
   * The record `fetch_emails` builds for one message: the four headers read
   * with default "", the snippet and labels, and the selected body cut to its
   * first 5000 characters (all of it when shorter; see `Truncate`).
   */
  method ShapeEmail(id: string, threadId: string, full: FullMessage, decode: string -> string)
    returns (email: Email)
    ensures var headers := HeaderMap(full.payload.headers);
            && email.from == Get(headers, "From")
            && email.to == Get(headers, "To")
            && email.subject == Get(headers, "Subject")
            && email.date == Get(headers, "Date")
    ensures email.id == id && email.threadId == threadId
    ensures email.snippet == full.snippet && email.labels == full.labelIds
    ensures email.body == Truncate(MessageBody(full.payload, decode), BodyLimit)
  {
    var headers := HeaderMap(full.payload.headers);
    var body := SelectBody(full.payload, decode);
    email := Email(
      id, threadId,
      Get(headers, "From"), Get(headers, "To"), Get(headers, "Subject"), Get(headers, "Date"),
      full.snippet, Truncate(body, BodyLimit), full.labelIds);
  }
}
