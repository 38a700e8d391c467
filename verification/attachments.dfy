/**
 * The part walk of `get_attachments`: `process_parts` visits the payload's
 * parts depth first, a part before its children, and collects every part that
 * has a file name and an attachment id. Fetching the attachment, decoding it
 * and writing the file are left out; the walk yields the (filename,
 * attachmentId) pairs it would download, in download order.
 */
module Attachments {
  import opened MessageParts

  datatype Attachment = Attachment(filename: string, attachmentId: string)

  /** `filename and part.get('body', {}).get('attachmentId')`. */
  predicate IsAttachment(p: Part)
  {
    p.filename != "" && p.body.attachmentId != ""
  }

  function AttachmentOf(p: Part): Attachment
  {
    Attachment(p.filename, p.body.attachmentId)
  }

  // ---------------------------------------------------------------------------
  // The walk

  /** What `process_parts(parts)` appends, in order. */
  function Walk(parts: seq<Part>): seq<Attachment>
    decreases parts
  {
    if parts == [] then []
    else VisitPart(parts[0]) + Walk(parts[1..])
  }

  /** One iteration of the loop in `process_parts`: the part itself, then its subtree. */
  function VisitPart(p: Part): seq<Attachment>
    decreases p
  {
    (if IsAttachment(p) then [AttachmentOf(p)] else []) + Walk(p.parts)
  }

  /**
   * `process_parts` with the enclosing `downloaded` list threaded through: it
   * appends exactly the walk of `parts` to what was collected before.
   */
  method ProcessParts(parts: seq<Part>, downloaded: seq<Attachment>) returns (result: seq<Attachment>)
    ensures result == downloaded + Walk(parts)
    decreases parts
  {
    result := downloaded;
    for i := 0 to |parts|
      invariant result == downloaded + Walk(parts[..i])
    {
      var part := parts[i];
      WalkStep(parts, i);
      ghost var before, own := result, if IsAttachment(part) then [AttachmentOf(part)] else [];
      if IsAttachment(part) {
        result := result + [AttachmentOf(part)];
      }
      assert result == before + own;
      if part.parts != [] {
        result := ProcessParts(part.parts, result);
      }
      assert result == (before + own) + Walk(part.parts);
      assert (before + own) + Walk(part.parts) == before + VisitPart(part);
    }
    assert parts[..|parts|] == parts;
  }

  /** `get_attachments`: the walk starts at the payload's parts, when it has any. */
  method GetAttachments(payload: Part) returns (downloaded: seq<Attachment>)
    ensures downloaded == Walk(payload.parts)
  {
    downloaded := [];
    if payload.parts != [] {
      downloaded := ProcessParts(payload.parts, downloaded);
    }
  }

  lemma {:induction false} WalkAppend(a: seq<Part>, b: seq<Part>)
    ensures Walk(a + b) == Walk(a) + Walk(b)
    decreases |a|
  {
    if a == [] {
      assert a + b == b;
    } else {
      assert (a + b)[1..] == a[1..] + b;
      WalkAppend(a[1..], b);
    }
  }

  lemma WalkStep(parts: seq<Part>, i: nat)
    requires i < |parts|
    ensures Walk(parts[..i + 1]) == Walk(parts[..i]) + VisitPart(parts[i])
  {
    assert parts[..i + 1] == parts[..i] + [parts[i]];
    WalkAppend(parts[..i], [parts[i]]);
    assert [parts[i]][1..] == [];
  }

  // ---------------------------------------------------------------------------
  // An independent description: list every part in pre-order, then keep the
  // attachments.

  /** Every part below `parts`, each before its own children. */
  function PreOrder(parts: seq<Part>): seq<Part>
    decreases parts
  {
    if parts == [] then []
    else [parts[0]] + PreOrder(parts[0].parts) + PreOrder(parts[1..])
  }

  /** The attachments among `ps`, in order. */
  function Selected(ps: seq<Part>): seq<Attachment>
  {
    if ps == [] then []
    else (if IsAttachment(ps[0]) then [AttachmentOf(ps[0])] else []) + Selected(ps[1..])
  }

  lemma {:induction false} SelectedAppend(a: seq<Part>, b: seq<Part>)
    ensures Selected(a + b) == Selected(a) + Selected(b)
    decreases |a|
  {
    if a == [] {
      assert a + b == b;
    } else {
      var h := if IsAttachment(a[0]) then [AttachmentOf(a[0])] else [];
      assert (a + b)[0] == a[0];
      assert (a + b)[1..] == a[1..] + b;
      SelectedAppend(a[1..], b);
      calc {
        Selected(a + b);
        h + Selected(a[1..] + b);
        h + (Selected(a[1..]) + Selected(b));
        (h + Selected(a[1..])) + Selected(b);
      }
    }
  }

  /** The walk is the attachments of the pre-order listing. */
  lemma {:induction false} WalkSelectsPreOrder(parts: seq<Part>)
    ensures Walk(parts) == Selected(PreOrder(parts))
    decreases parts
  {
    if parts != [] {
      var p := parts[0];
      WalkSelectsPreOrder(p.parts);
      WalkSelectsPreOrder(parts[1..]);
      SelectedAppend([p] + PreOrder(p.parts), PreOrder(parts[1..]));
      SelectedAppend([p], PreOrder(p.parts));
      assert [p][1..] == [];
    }
  }

  /** A pair is selected exactly when some part of the list is an attachment carrying it. */
  lemma {:induction false} SelectedIff(ps: seq<Part>, a: Attachment)
    ensures a in Selected(ps) <==> exists i :: 0 <= i < |ps| && IsAttachment(ps[i]) && AttachmentOf(ps[i]) == a
  {
    if ps != [] {
      SelectedIff(ps[1..], a);
      if exists i :: 0 <= i < |ps| && IsAttachment(ps[i]) && AttachmentOf(ps[i]) == a {
        var i :| 0 <= i < |ps| && IsAttachment(ps[i]) && AttachmentOf(ps[i]) == a;
        if i > 0 {
          assert ps[1..][i - 1] == ps[i];
        }
      }
      if a in Selected(ps[1..]) {
        var i :| 0 <= i < |ps| - 1 && IsAttachment(ps[1..][i]) && AttachmentOf(ps[1..][i]) == a;
        assert ps[i + 1] == ps[1..][i];
      }
    }
  }

  /**
   * The walk downloads a pair exactly when some part in the tree below the
   * payload has a non-empty file name and attachment id carrying it.
   */
  lemma WalkSelectsExactlyAttachments(payload: Part, a: Attachment)
    ensures a in Walk(payload.parts) <==>
            exists i :: 0 <= i < |PreOrder(payload.parts)| &&
                        IsAttachment(PreOrder(payload.parts)[i]) &&
                        AttachmentOf(PreOrder(payload.parts)[i]) == a
  {
    WalkSelectsPreOrder(payload.parts);
    SelectedIff(PreOrder(payload.parts), a);
  }

  // ---------------------------------------------------------------------------
  // Shape of the pre-order listing

  function Size(p: Part): nat
    decreases p
  {
    1 + ForestSize(p.parts)
  }

  function ForestSize(parts: seq<Part>): nat
    decreases parts
  {
    if parts == [] then 0 else Size(parts[0]) + ForestSize(parts[1..])
  }

  /** No part listed under a forest is larger than the forest itself. */
  lemma {:induction false} ListedPartsAreSmaller(parts: seq<Part>, i: nat)
    requires i < |PreOrder(parts)|
    ensures Size(PreOrder(parts)[i]) <= ForestSize(parts)
    decreases parts
  {
    var p := parts[0];
    var n := |PreOrder(p.parts)|;
    if i == 0 {
    } else if i <= n {
      assert PreOrder(parts)[i] == PreOrder(p.parts)[i - 1];
      ListedPartsAreSmaller(p.parts, i - 1);
    } else {
      assert PreOrder(parts)[i] == PreOrder(parts[1..])[i - 1 - n];
      ListedPartsAreSmaller(parts[1..], i - 1 - n);
    }
  }

  /** The payload is not among the parts the walk visits, so it is never selected itself. */
  lemma PayloadIsNeverVisited(payload: Part)
    ensures payload !in PreOrder(payload.parts)
  {
    if payload in PreOrder(payload.parts) {
      var i :| 0 <= i < |PreOrder(payload.parts)| && PreOrder(payload.parts)[i] == payload;
      ListedPartsAreSmaller(payload.parts, i);
    }
  }

  /** In `all`, entry `i` is followed at once by the listing of its own children. */
  predicate SubtreeFollows(all: seq<Part>, i: nat)
    requires i < |all|
  {
    var sub := PreOrder(all[i].parts);
    i + 1 + |sub| <= |all| && all[i + 1..i + 1 + |sub|] == sub
  }

  /**
   * Each listed part is followed at once by the listing of its own children:
   * a parent comes before its whole subtree, and nothing else sits in between.
   */
  lemma {:induction false} SubtreeFollowsPart(parts: seq<Part>, i: nat)
    requires i < |PreOrder(parts)|
    ensures SubtreeFollows(PreOrder(parts), i)
    decreases parts, 1
  {
    if i <= |PreOrder(parts[0].parts)| {
      SubtreeFollowsInFront(parts, i);
    } else {
      SubtreeFollowsInRest(parts, i);
    }
  }

  /** The part itself or a part below it: the listing of its children. */
  lemma {:induction false} SubtreeFollowsInFront(parts: seq<Part>, i: nat)
    requires parts != [] && i <= |PreOrder(parts[0].parts)|
    ensures i < |PreOrder(parts)| && SubtreeFollows(PreOrder(parts), i)
    decreases parts, 0
  {
    var p := parts[0];
    var sub := PreOrder(p.parts);
    var rest := PreOrder(parts[1..]);
    assert PreOrder(parts) == [p] + sub + rest;
    if i == 0 {
      SliceInside(p, sub, rest, 0, sub);
    } else {
      SubtreeFollowsPart(p.parts, i - 1);
      SliceInside(p, sub, rest, i, PreOrder(sub[i - 1].parts));
    }
  }

  /** A part under a later sibling: the listing of the siblings, shifted. */
  lemma {:induction false} SubtreeFollowsInRest(parts: seq<Part>, i: nat)
    requires parts != [] && |PreOrder(parts[0].parts)| < i < |PreOrder(parts)|
    ensures SubtreeFollows(PreOrder(parts), i)
    decreases parts, 0
  {
    var p := parts[0];
    var sub := PreOrder(p.parts);
    var rest := PreOrder(parts[1..]);
    assert PreOrder(parts) == [p] + sub + rest;
    var j := i - 1 - |sub|;
    SubtreeFollowsPart(parts[1..], j);
    SubtreeFollowsAfter(p, sub, rest, j);
  }

  /** A run of `sub` stays in place when `p` goes before it and `rest` after it. */
  lemma SliceInside(p: Part, sub: seq<Part>, rest: seq<Part>, k: nat, run: seq<Part>)
    requires k + |run| <= |sub| && sub[k..k + |run|] == run
    ensures ([p] + sub + rest)[k] == if k == 0 then p else sub[k - 1]
    ensures ([p] + sub + rest)[k + 1..k + 1 + |run|] == run
  {
    var all := [p] + sub + rest;
    assert all[k + 1..k + 1 + |run|] == sub[k..k + |run|];
  }

  /** An entry of `rest` keeps its subtree run behind it when `p` and `sub` go before it. */
  lemma SubtreeFollowsAfter(p: Part, sub: seq<Part>, rest: seq<Part>, j: nat)
    requires j < |rest| && SubtreeFollows(rest, j)
    ensures 1 + |sub| + j < |[p] + sub + rest| && SubtreeFollows([p] + sub + rest, 1 + |sub| + j)
  {
    var all := [p] + sub + rest;
    var i := 1 + |sub| + j;
    var run := PreOrder(rest[j].parts);
    assert all[i] == rest[j];
    assert all[i + 1..i + 1 + |run|] == rest[j + 1..j + 1 + |run|];
  }
}
