/** The per-ticket comment synchronisation: which alert comments are copied onto a ticket, the
    two-paragraph document each copy is posted as, and how many copies the tracker accepted. */
module CommentSync {
  import opened Wrappers
  import opened Strings
  import opened Adf
  import opened Timestamps

  /** One comment of an alert: author id, timestamp text and body text; any key may be absent. */
  datatype AlertComment = AlertComment(falconUserId: Option<string>, timestamp: Option<string>, value: Option<string>)

  /** The three fields the sync reads from an alert comment, with their defaults applied. */
  datatype Record = Record(author: string, text: string, timestamp: string)

  /** One post of a comment copy to the tracker and whether the tracker answered "created". */
  datatype Attempt = Attempt(author: string, text: string, timestamp: string, created: bool)

  /** What syncing one ticket did: whether its existing comments were fetched, the posts it
      attempted, in order, and the number of them that were created. */
  datatype TicketOutcome = TicketOutcome(fetched: bool, attempts: seq<Attempt>, syncedCount: nat)

  /** One ticket found for an alert, with the alert's owner and comments: the unit of work of
      the status change and of the comment sync. */
  datatype MappedEntry = MappedEntry(issueKey: string, assigneeEmail: string, comments: seq<AlertComment>, alertId: string)

  /** Local-time rendering `YYYY-MM-DD HH:MM:SS` of epoch seconds. It depends on the host's
      time zone, so the model leaves it uninterpreted: any deterministic function will do. */
  type Formatter = int -> string

  /** Which of a ticket's posts the tracker accepts, by the post's position among the ticket's
      attempts (0 for the first). */
  type PostOracle = nat -> bool

  const UnknownUser := "Unknown User"
  const UnknownDate := "Unknown Date"

  function RecordOf(c: AlertComment): Record {
    Record(c.falconUserId.GetOr(UnknownUser), c.value.GetOr(""), c.timestamp.GetOr(""))
  }

  function Records(cs: seq<AlertComment>): (rs: seq<Record>)
    ensures |rs| == |cs|
  {
    seq(|cs|, i requires 0 <= i < |cs| => RecordOf(cs[i]))
  }

  /** The attribution line both the duplicate check and the posted copy use. */
  function Prefix(author: string, formattedTime: string): string {
    "Comment from CrowdStrike by " + author + " on " + formattedTime + ":"
  }

  /** The time written into the prefix the duplicate check looks for: a missing or empty
      timestamp is shown as "Unknown Date". */
  function CheckedTime(timestamp: string, fmt: Formatter): string {
    if timestamp == "" then UnknownDate else fmt(ParseTimestamp(timestamp))
  }

  /** The time written into the prefix of a posted copy: always the rendered parse result,
      which is the rendering of 0 when the timestamp is empty. */
  function PostedTime(timestamp: string, fmt: Formatter): string {
    fmt(ParseTimestamp(timestamp))
  }

  /** The prefixes agree exactly when the timestamp is non-empty. */
  lemma CheckedTimeMatchesPosted(timestamp: string, fmt: Formatter)
    requires timestamp != ""
    ensures CheckedTime(timestamp, fmt) == PostedTime(timestamp, fmt)
  {
  }

  function TextNode(text: string, marks: seq<string>): Node {
    Node(Some("text"), None, Some(text), marks)
  }

  function Paragraph(runs: seq<Node>): Node {
    Node(Some("paragraph"), Some(runs), None, [])
  }

  /** The body posted for one copied comment: a version-1 document of two paragraphs, the bold
      attribution line and then the raw comment text. It flattens back to exactly the
      attribution line followed by the text. */
  function CommentDocument(text: string, author: string, timestamp: string, fmt: Formatter): (b: Body)
    ensures b.Document? && b.kind == Some("doc") && b.version == Some(1) && b.content.Some?
    ensures |b.content.value| == 2
    ensures IsParagraph(b.content.value[0]) && b.content.value[0].content.value
      == [TextNode(Prefix(author, PostedTime(timestamp, fmt)), ["strong"])]
    ensures IsParagraph(b.content.value[1]) && b.content.value[1].content.value == [TextNode(text, [])]
    ensures Flatten(b) == Prefix(author, PostedTime(timestamp, fmt)) + text
  {
    var heading := Paragraph([TextNode(Prefix(author, PostedTime(timestamp, fmt)), ["strong"])]);
    var body := Paragraph([TextNode(text, [])]);
    var nodes := [heading, body];
    FlattenNodesAppend([heading], [body]);
    assert nodes == [heading] + [body];
    FlattenSingleton(heading);
    FlattenSingleton(body);
    ParagraphSingleton(TextNode(Prefix(author, PostedTime(timestamp, fmt)), ["strong"]));
    ParagraphSingleton(TextNode(text, []));
    assert NodeText(heading) == Prefix(author, PostedTime(timestamp, fmt));
    assert NodeText(body) == text;
    Document(Some("doc"), Some(1), Some(nodes))
  }

  function DocumentOf(a: Attempt, fmt: Formatter): Body {
    CommentDocument(a.text, a.author, a.timestamp, fmt)
  }

  /** The flattened texts of a ticket's existing comments. */
  function ExistingTexts(bodies: seq<Body>): set<string> {
    set b | b in bodies :: Flatten(b)
  }

  /** Some existing text contains both the attribution line and the raw text. */
  predicate AlreadySynced(existing: set<string>, prefix: string, text: string) {
    exists e :: e in existing && IsSubstring(prefix, e) && IsSubstring(text, e)
  }

  /** A record is posted when its text is non-empty and no existing comment already holds it. */
  predicate NeedsPost(existing: set<string>, r: Record, fmt: Formatter) {
    r.text != "" && !AlreadySynced(existing, Prefix(r.author, CheckedTime(r.timestamp, fmt)), r.text)
  }

  /** The records that get a post, in the order of the alert's comments. */
  function ToPost(existing: set<string>, rs: seq<Record>, fmt: Formatter): (r: seq<Record>)
    ensures |r| <= |rs|
  {
    if rs == [] then []
    else (if NeedsPost(existing, rs[0], fmt) then [rs[0]] else []) + ToPost(existing, rs[1..], fmt)
  }

  function NonEmptyCount(rs: seq<Record>): nat {
    if rs == [] then 0 else (if rs[0].text != "" then 1 else 0) + NonEmptyCount(rs[1..])
  }

  function CountCreated(atts: seq<Attempt>): nat {
    if atts == [] then 0 else CountCreated(atts[..|atts| - 1]) + (if atts[|atts| - 1].created then 1 else 0)
  }

  function AttemptsOf(rs: seq<Record>, accepted: PostOracle): (atts: seq<Attempt>)
    ensures |atts| == |rs|
  {
    seq(|rs|, i requires 0 <= i < |rs| => Attempt(rs[i].author, rs[i].text, rs[i].timestamp, accepted(i)))
  }

  /** Syncing the comments of one alert onto one ticket. The ticket's existing comments are
      read once, only when the alert has comments, and the set of their texts is not updated
      by the posts made in the same pass. */
  function SyncTicket(bodies: seq<Body>, comments: seq<AlertComment>, fmt: Formatter, accepted: PostOracle)
    : (o: TicketOutcome)
    ensures o.fetched <==> comments != []
    ensures |o.attempts| <= NonEmptyCount(Records(comments))
    ensures forall i :: 0 <= i < |o.attempts| ==>
      && o.attempts[i].created == accepted(i)
      && o.attempts[i].text != ""
      && NeedsPost(ExistingTexts(bodies), Record(o.attempts[i].author, o.attempts[i].text, o.attempts[i].timestamp), fmt)
    ensures o.syncedCount == |set i | 0 <= i < |o.attempts| && accepted(i)|
    ensures o.syncedCount <= |o.attempts|
  {
    if comments == [] then TicketOutcome(false, [], 0)
    else
      var rs := ToPost(ExistingTexts(bodies), Records(comments), fmt);
      var atts := AttemptsOf(rs, accepted);
      ToPostWithinNonEmpty(ExistingTexts(bodies), Records(comments), fmt);
      ToPostNeedsPost(ExistingTexts(bodies), Records(comments), fmt);
      CountCreatedIsCardinality(atts);
      assert (set i | 0 <= i < |atts| && atts[i].created) == (set i | 0 <= i < |atts| && accepted(i));
      TicketOutcome(true, atts, CountCreated(atts))
  }

  // ---------------------------------------------------------------------------------------
  // Lemmas about one pass

  lemma {:induction false} ToPostWithinNonEmpty(existing: set<string>, rs: seq<Record>, fmt: Formatter)
    ensures |ToPost(existing, rs, fmt)| <= NonEmptyCount(rs)
  {
    if rs != [] {
      ToPostWithinNonEmpty(existing, rs[1..], fmt);
    }
  }

  /** Every record chosen for a post needs one. */
  lemma {:induction false} ToPostNeedsPost(existing: set<string>, rs: seq<Record>, fmt: Formatter)
    ensures forall i :: 0 <= i < |ToPost(existing, rs, fmt)| ==> NeedsPost(existing, ToPost(existing, rs, fmt)[i], fmt)
  {
    if rs != [] {
      ToPostNeedsPost(existing, rs[1..], fmt);
    }
  }

  /** The number of created posts is the number of attempts the tracker accepted. */
  lemma {:induction false} CountCreatedIsCardinality(atts: seq<Attempt>)
    ensures CountCreated(atts) == |set i | 0 <= i < |atts| && atts[i].created|
    ensures CountCreated(atts) <= |atts|
  {
    if atts != [] {
      var n := |atts| - 1;
      var init := atts[..n];
      CountCreatedIsCardinality(init);
      var s0 := set i | 0 <= i < |init| && init[i].created;
      var s1 := set i | 0 <= i < |atts| && atts[i].created;
      if atts[n].created {
        assert s1 == s0 + {n};
        assert n !in s0;
      } else {
        assert s1 == s0;
      }
    }
  }

  /** Deciding the records of two stretches of comments is deciding each stretch. */
  lemma {:induction false} ToPostAppend(existing: set<string>, a: seq<Record>, b: seq<Record>, fmt: Formatter)
    ensures ToPost(existing, a + b, fmt) == ToPost(existing, a, fmt) + ToPost(existing, b, fmt)
  {
    if a == [] {
      assert a + b == b;
    } else {
      var h := if NeedsPost(existing, a[0], fmt) then [a[0]] else [];
      assert (a + b)[0] == a[0] && (a + b)[1..] == a[1..] + b;
      assert ToPost(existing, a + b, fmt) == h + ToPost(existing, a[1..] + b, fmt);
      assert ToPost(existing, a, fmt) == h + ToPost(existing, a[1..], fmt);
      ToPostAppend(existing, a[1..], b, fmt);
      assert h + (ToPost(existing, a[1..], fmt) + ToPost(existing, b, fmt))
          == (h + ToPost(existing, a[1..], fmt)) + ToPost(existing, b, fmt);
    }
  }

  /** Every record is posted as often as it occurs among the alert's comments when it needs a
      post, and never otherwise: duplicates within one alert are all posted. */
  lemma {:induction false} ToPostMultiplicity(existing: set<string>, rs: seq<Record>, fmt: Formatter, x: Record)
    ensures multiset(ToPost(existing, rs, fmt))[x] == if NeedsPost(existing, x, fmt) then multiset(rs)[x] else 0
  {
    if rs != [] {
      ToPostMultiplicity(existing, rs[1..], fmt, x);
      assert rs == [rs[0]] + rs[1..];
      assert multiset(rs) == multiset([rs[0]]) + multiset(rs[1..]);
    }
  }

  /** A pass over a non-empty comment list posts the chosen records in order. */
  lemma SyncTicketUnfold(bodies: seq<Body>, comments: seq<AlertComment>, fmt: Formatter, accepted: PostOracle)
    requires comments != []
    ensures var atts := AttemptsOf(ToPost(ExistingTexts(bodies), Records(comments), fmt), accepted);
      SyncTicket(bodies, comments, fmt, accepted) == TicketOutcome(true, atts, CountCreated(atts))
  {
  }

  lemma ToPostSkipsEmpty(existing: set<string>, a: seq<Record>, r: Record, b: seq<Record>, fmt: Formatter)
    requires r.text == ""
    ensures ToPost(existing, a + [r] + b, fmt) == ToPost(existing, a + b, fmt)
  {
    ToPostAppend(existing, a + [r], b, fmt);
    ToPostAppend(existing, a, [r], fmt);
    ToPostAppend(existing, a, b, fmt);
    assert ToPost(existing, [r], fmt) == [];
  }

  /** A comment with an empty body is never posted, takes no part in the duplicate check and
      changes neither the posts nor the count, wherever it stands. */
  lemma EmptyCommentIgnored(
    bodies: seq<Body>, a: seq<AlertComment>, c: AlertComment, b: seq<AlertComment>,
    fmt: Formatter, accepted: PostOracle)
    requires RecordOf(c).text == ""
    ensures SyncTicket(bodies, a + [c] + b, fmt, accepted).attempts == SyncTicket(bodies, a + b, fmt, accepted).attempts
    ensures SyncTicket(bodies, a + [c] + b, fmt, accepted).syncedCount == SyncTicket(bodies, a + b, fmt, accepted).syncedCount
  {
    var e := ExistingTexts(bodies);
    var with := a + [c] + b;
    var without := a + b;
    assert Records(with) == Records(a) + [RecordOf(c)] + Records(b);
    assert Records(without) == Records(a) + Records(b);
    ToPostSkipsEmpty(e, Records(a), RecordOf(c), Records(b), fmt);
    SyncTicketUnfold(bodies, with, fmt, accepted);
    if without != [] {
      SyncTicketUnfold(bodies, without, fmt, accepted);
    } else {
      assert Records(a) == [] && Records(b) == [];
      assert ToPost(e, Records(with), fmt) == [];
    }
  }

  /** A single non-empty comment is skipped exactly when some existing comment contains both its
      attribution line and its text; otherwise exactly one post is attempted for it, with its
      author, text and timestamp. */
  lemma SingleCommentDecision(bodies: seq<Body>, c: AlertComment, fmt: Formatter, accepted: PostOracle)
    requires RecordOf(c).text != ""
    ensures var r := RecordOf(c);
      var o := SyncTicket(bodies, [c], fmt, accepted);
      && (o.attempts == [] <==> AlreadySynced(ExistingTexts(bodies), Prefix(r.author, CheckedTime(r.timestamp, fmt)), r.text))
      && (o.attempts != [] ==> o.attempts == [Attempt(r.author, r.text, r.timestamp, accepted(0))])
  {
    assert Records([c]) == [RecordOf(c)];
    assert Records([c])[1..] == [];
  }

  /** The existing texts are read once: two identical comments that need a post are both
      posted in the same pass. */
  lemma DuplicatesBothPosted(bodies: seq<Body>, c: AlertComment, fmt: Formatter, accepted: PostOracle)
    requires NeedsPost(ExistingTexts(bodies), RecordOf(c), fmt)
    ensures SyncTicket(bodies, [c, c], fmt, accepted).attempts
         == [ Attempt(RecordOf(c).author, RecordOf(c).text, RecordOf(c).timestamp, accepted(0)),
              Attempt(RecordOf(c).author, RecordOf(c).text, RecordOf(c).timestamp, accepted(1)) ]
  {
    var e := ExistingTexts(bodies);
    var r := RecordOf(c);
    assert Records([c, c]) == [r] + [r];
    ToPostAppend(e, [r], [r], fmt);
    assert [r][1..] == [];
    assert ToPost(e, [r], fmt) == [r];
    SyncTicketUnfold(bodies, [c, c], fmt, accepted);
  }

  // ---------------------------------------------------------------------------------------
  // The loops as written

  /** The scan over the existing texts, stopping at the first that contains both strings. */
  method ScanExisting(existing: set<string>, prefix: string, text: string) returns (skip: bool)
    ensures skip <==> AlreadySynced(existing, prefix, text)
  {
    skip := false;
    var rest := existing;
    while rest != {} && !skip
      invariant rest <= existing
      invariant skip ==> AlreadySynced(existing, prefix, text)
      invariant !skip ==> forall e :: e in existing - rest ==> !(IsSubstring(prefix, e) && IsSubstring(text, e))
      decreases rest
    {
      var e :| e in rest;
      var hasPrefix := Contains(prefix, e);
      var hasText := Contains(text, e);
      if hasPrefix && hasText {
        skip := true;
      }
      rest := rest - {e};
    }
  }

  /** The texts of a ticket's existing comments, flattened one by one into a set. */
  method CollectExisting(bodies: seq<Body>) returns (existing: set<string>)
    ensures existing == ExistingTexts(bodies)
  {
    existing := {};
    var k := 0;
    while k < |bodies|
      invariant 0 <= k <= |bodies|
      invariant existing == ExistingTexts(bodies[..k])
    {
      var t := FlattenComment(bodies[k]);
      existing := existing + {t};
      assert bodies[..k + 1] == bodies[..k] + [bodies[k]];
      k := k + 1;
    }
    assert bodies[..k] == bodies;
  }

  /** The decision for one comment: empty texts are passed over, the others are posted unless
      the scan finds them. */
  method DecideComment(existing: set<string>, r: Record, fmt: Formatter) returns (post: bool)
    ensures post == NeedsPost(existing, r, fmt)
  {
    if r.text == "" {
      return false;
    }
    var formattedTime := CheckedTime(r.timestamp, fmt);
    var skip := ScanExisting(existing, Prefix(r.author, formattedTime), r.text);
    post := !skip;
  }

  /** Deciding one more comment extends the attempts by at most one post. */
  lemma AttemptsStep(existing: set<string>, rs: seq<Record>, r: Record, fmt: Formatter, accepted: PostOracle)
    ensures var before := AttemptsOf(ToPost(existing, rs, fmt), accepted);
      AttemptsOf(ToPost(existing, rs + [r], fmt), accepted)
        == before + (if NeedsPost(existing, r, fmt)
                     then [Attempt(r.author, r.text, r.timestamp, accepted(|before|))] else [])
  {
    ToPostAppend(existing, rs, [r], fmt);
    assert [r][1..] == [];
  }

  lemma CountCreatedStep(atts: seq<Attempt>, a: Attempt)
    ensures CountCreated(atts + [a]) == CountCreated(atts) + (if a.created then 1 else 0)
  {
    assert (atts + [a])[..|atts|] == atts;
  }

  /** The walk over an alert's comments, in order, against a fixed set of existing texts. */
  method WalkComments(existing: set<string>, comments: seq<AlertComment>, fmt: Formatter, accepted: PostOracle)
    returns (attempts: seq<Attempt>, synced: nat)
    ensures attempts == AttemptsOf(ToPost(existing, Records(comments), fmt), accepted)
    ensures synced == CountCreated(attempts)
  {
    attempts := [];
    synced := 0;
    var i := 0;
    while i < |comments|
      invariant 0 <= i <= |comments|
      invariant attempts == AttemptsOf(ToPost(existing, Records(comments[..i]), fmt), accepted)
      invariant synced == CountCreated(attempts)
    {
      var r := RecordOf(comments[i]);
      assert Records(comments[..i + 1]) == Records(comments[..i]) + [r];
      AttemptsStep(existing, Records(comments[..i]), r, fmt, accepted);
      var post := DecideComment(existing, r, fmt);
      if post {
        var success := accepted(|attempts|);
        var a := Attempt(r.author, r.text, r.timestamp, success);
        CountCreatedStep(attempts, a);
        attempts := attempts + [a];
        if success {
          synced := synced + 1;
        }
      }
      i := i + 1;
    }
    assert comments[..i] == comments;
  }

  /** One ticket's pass: nothing is fetched for an alert without comments; otherwise the
      existing texts are collected once and the alert's comments are walked. */
  method SyncTicketLoop(bodies: seq<Body>, comments: seq<AlertComment>, fmt: Formatter, accepted: PostOracle)
    returns (o: TicketOutcome)
    ensures o == SyncTicket(bodies, comments, fmt, accepted)
  {
    if comments == [] {
      return TicketOutcome(false, [], 0);
    }
    var existing := CollectExisting(bodies);
    var attempts, synced := WalkComments(existing, comments, fmt, accepted);
    SyncTicketUnfold(bodies, comments, fmt, accepted);
    o := TicketOutcome(true, attempts, synced);
  }

  // ---------------------------------------------------------------------------------------
  // All tickets

  /** The comment sync over every mapped entry, in order. `existingOf(i)` is what the comment
      list request for entry `i` returned (empty when it failed) and `accepted(i, j)` whether the
      tracker created the `j`-th post for entry `i`. */
  function SyncComments(
    entries: seq<MappedEntry>, existingOf: nat -> seq<Body>, fmt: Formatter, accepted: (nat, nat) -> bool)
    : (r: seq<TicketOutcome>)
    ensures |r| == |entries|
  {
    seq(|entries|, i requires 0 <= i < |entries| => SyncTicket(existingOf(i), entries[i].comments, fmt, (j: nat) => accepted(i, j)))
  }

  /** A ticket's pass depends on the post oracle only through the answers it gives. */
  lemma SyncTicketOracleExt(bodies: seq<Body>, comments: seq<AlertComment>, fmt: Formatter, a1: PostOracle, a2: PostOracle)
    requires forall j :: a1(j) == a2(j)
    ensures SyncTicket(bodies, comments, fmt, a1) == SyncTicket(bodies, comments, fmt, a2)
  {
    if comments != [] {
      var rs := ToPost(ExistingTexts(bodies), Records(comments), fmt);
      assert AttemptsOf(rs, a1) == AttemptsOf(rs, a2);
      SyncTicketUnfold(bodies, comments, fmt, a1);
      SyncTicketUnfold(bodies, comments, fmt, a2);
    }
  }

  /** Entries are processed independently: entry `i`'s outcome is the single-ticket pass over its
      own comments, its own fetched list and its own post answers, whatever the other entries
      hold and however their requests went. */
  lemma SyncCommentsIndependent(
    entries1: seq<MappedEntry>, existing1: nat -> seq<Body>, accepted1: (nat, nat) -> bool,
    entries2: seq<MappedEntry>, existing2: nat -> seq<Body>, accepted2: (nat, nat) -> bool,
    fmt: Formatter, i: nat)
    requires i < |entries1| && i < |entries2|
    requires entries1[i].comments == entries2[i].comments && existing1(i) == existing2(i)
    requires forall j :: accepted1(i, j) == accepted2(i, j)
    ensures SyncComments(entries1, existing1, fmt, accepted1)[i] == SyncComments(entries2, existing2, fmt, accepted2)[i]
    ensures SyncComments(entries1, existing1, fmt, accepted1)[i]
         == SyncTicket(existing1(i), entries1[i].comments, fmt, (j: nat) => accepted1(i, j))
  {
    SyncTicketOracleExt(existing1(i), entries1[i].comments, fmt, (j: nat) => accepted1(i, j), (j: nat) => accepted2(i, j));
  }
}
