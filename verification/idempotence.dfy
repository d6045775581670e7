/** What a second pass over the same ticket does: copies posted by the first pass are found
    again when their timestamp is non-empty, and never found when it is empty. */
module Idempotence {
  import opened Wrappers
  import opened Strings
  import opened Adf
  import opened Timestamps
  import opened CommentSync

  /** The bodies of the posts the tracker created, in posting order. */
  function CreatedDocuments(atts: seq<Attempt>, fmt: Formatter): (docs: seq<Body>)
    ensures |docs| <= |atts|
  {
    if atts == [] then []
    else (if atts[0].created then [DocumentOf(atts[0], fmt)] else []) + CreatedDocuments(atts[1..], fmt)
  }

  lemma {:induction false} CreatedDocumentsContains(atts: seq<Attempt>, fmt: Formatter, j: int)
    requires 0 <= j < |atts| && atts[j].created
    ensures DocumentOf(atts[j], fmt) in CreatedDocuments(atts, fmt)
  {
    if j > 0 {
      CreatedDocumentsContains(atts[1..], fmt, j - 1);
    }
  }

  /** A ticket that holds the copy posted for a dated comment makes the duplicate check skip
      that comment: the posted document flattens to the attribution line followed by the text,
      and with a non-empty timestamp the check looks for that very line. */
  lemma DatedCopyRecognised(bodies: seq<Body>, r: Record, fmt: Formatter)
    requires r.text != "" && r.timestamp != ""
    requires CommentDocument(r.text, r.author, r.timestamp, fmt) in bodies
    ensures !NeedsPost(ExistingTexts(bodies), r, fmt)
  {
    var prefix := Prefix(r.author, CheckedTime(r.timestamp, fmt));
    var flat := Flatten(CommentDocument(r.text, r.author, r.timestamp, fmt));
    assert flat == prefix + r.text;
    assert flat in ExistingTexts(bodies);
    SubstringOfConcat(prefix, r.text);
  }

  /** More existing comments can only turn a post into a skip. */
  lemma NeedsPostAntitone(small: set<string>, large: set<string>, r: Record, fmt: Formatter)
    requires small <= large && NeedsPost(large, r, fmt)
    ensures NeedsPost(small, r, fmt)
  {
  }

  /** The position of a record among the records chosen for a post. */
  lemma ChosenIndex(existing: set<string>, rs: seq<Record>, fmt: Formatter, x: Record)
    requires x in rs && NeedsPost(existing, x, fmt)
    ensures exists j :: 0 <= j < |ToPost(existing, rs, fmt)| && ToPost(existing, rs, fmt)[j] == x
  {
    ToPostMultiplicity(existing, rs, fmt, x);
    assert x in multiset(ToPost(existing, rs, fmt));
  }

  /** A chosen record comes from the alert's comments. */
  lemma ChosenIsComment(existing: set<string>, rs: seq<Record>, fmt: Formatter, j: int)
    requires 0 <= j < |ToPost(existing, rs, fmt)|
    ensures ToPost(existing, rs, fmt)[j] in rs
  {
    var x := ToPost(existing, rs, fmt)[j];
    ToPostMultiplicity(existing, rs, fmt, x);
    assert x in multiset(ToPost(existing, rs, fmt));
  }

  function RecordOfAttempt(a: Attempt): Record {
    Record(a.author, a.text, a.timestamp)
  }

  /** Re-running the sync against the ticket as the first pass left it (its old comments plus
      the copies the tracker created) posts a comment again only when its timestamp is empty or
      every first-pass post of it failed. */
  lemma SecondPassRepostsOnlyUndatedOrFailed(
    bodies: seq<Body>, comments: seq<AlertComment>, fmt: Formatter, first: PostOracle, second: PostOracle, k: int)
    requires var o2 := SyncTicket(
      bodies + CreatedDocuments(SyncTicket(bodies, comments, fmt, first).attempts, fmt), comments, fmt, second);
      0 <= k < |o2.attempts|
    ensures var o1 := SyncTicket(bodies, comments, fmt, first);
      var a := SyncTicket(bodies + CreatedDocuments(o1.attempts, fmt), comments, fmt, second).attempts[k];
      && RecordOfAttempt(a) in Records(comments)
      && a.text != ""
      && (|| a.timestamp == ""
      || (&& (exists j :: 0 <= j < |o1.attempts| && RecordOfAttempt(o1.attempts[j]) == RecordOfAttempt(a))
          && (forall j :: 0 <= j < |o1.attempts| && RecordOfAttempt(o1.attempts[j]) == RecordOfAttempt(a)
                ==> !o1.attempts[j].created)))
  {
    var o1 := SyncTicket(bodies, comments, fmt, first);
    var bodies2 := bodies + CreatedDocuments(o1.attempts, fmt);
    var o2 := SyncTicket(bodies2, comments, fmt, second);
    var a := o2.attempts[k];
    var x := RecordOfAttempt(a);
    var rs := Records(comments);
    var e1 := ExistingTexts(bodies);
    var e2 := ExistingTexts(bodies2);
    SyncTicketUnfold(bodies, comments, fmt, first);
    SyncTicketUnfold(bodies2, comments, fmt, second);
    assert x == ToPost(e2, rs, fmt)[k];
    ToPostNeedsPost(e2, rs, fmt);
    ChosenIsComment(e2, rs, fmt, k);
    assert e1 <= e2;
    NeedsPostAntitone(e1, e2, x, fmt);
    ChosenIndex(e1, rs, fmt, x);
    var j :| 0 <= j < |ToPost(e1, rs, fmt)| && ToPost(e1, rs, fmt)[j] == x;
    assert RecordOfAttempt(o1.attempts[j]) == x;
    if a.timestamp != "" {
      forall j' | 0 <= j' < |o1.attempts| && RecordOfAttempt(o1.attempts[j']) == x
        ensures !o1.attempts[j'].created
      {
        if o1.attempts[j'].created {
          CreatedDocumentsContains(o1.attempts, fmt, j');
          assert DocumentOf(o1.attempts[j'], fmt) == CommentDocument(x.text, x.author, x.timestamp, fmt);
          DatedCopyRecognised(bodies2, x, fmt);
        }
      }
    }
  }

  /** Idempotence: when every non-empty comment carries a timestamp and the tracker created
      every post of the first pass, a second pass against the updated ticket posts nothing. */
  lemma SecondPassPostsNothing(
    bodies: seq<Body>, comments: seq<AlertComment>, fmt: Formatter, first: PostOracle, second: PostOracle)
    requires forall i :: 0 <= i < |comments| && RecordOf(comments[i]).text != "" ==> RecordOf(comments[i]).timestamp != ""
    requires forall j :: 0 <= j < |SyncTicket(bodies, comments, fmt, first).attempts| ==> first(j)
    ensures var o1 := SyncTicket(bodies, comments, fmt, first);
      var o2 := SyncTicket(bodies + CreatedDocuments(o1.attempts, fmt), comments, fmt, second);
      o2.attempts == [] && o2.syncedCount == 0
  {
    var o1 := SyncTicket(bodies, comments, fmt, first);
    var bodies2 := bodies + CreatedDocuments(o1.attempts, fmt);
    var o2 := SyncTicket(bodies2, comments, fmt, second);
    if o2.attempts != [] {
      SecondPassRepostsOnlyUndatedOrFailed(bodies, comments, fmt, first, second, 0);
      assert false;
    }
  }

  /** A comment without a timestamp is looked for under "Unknown Date" but posted with the
      rendering of epoch 0, so a ticket whose comments never mention "Unknown Date" never
      counts it as synced, even when it already holds the copy posted for it. */
  lemma UndatedNeverRecognised(bodies: seq<Body>, r: Record, fmt: Formatter)
    requires r.text != "" && r.timestamp == ""
    requires forall b | b in bodies :: !IsSubstring(UnknownDate, Flatten(b))
    ensures NeedsPost(ExistingTexts(bodies), r, fmt)
  {
    var prefix := Prefix(r.author, CheckedTime(r.timestamp, fmt));
    assert prefix == ("Comment from CrowdStrike by " + r.author + " on ") + UnknownDate + ":";
    SubstringOfConcat("Comment from CrowdStrike by " + r.author + " on ", UnknownDate);
    SubstringOfConcat("Comment from CrowdStrike by " + r.author + " on " + UnknownDate, ":");
    SubstringTrans(UnknownDate, "Comment from CrowdStrike by " + r.author + " on " + UnknownDate, prefix);
    if !NeedsPost(ExistingTexts(bodies), r, fmt) {
      var e :| e in ExistingTexts(bodies) && IsSubstring(prefix, e) && IsSubstring(r.text, e);
      var b :| b in bodies && Flatten(b) == e;
      SubstringTrans(UnknownDate, prefix, e);
      assert false;
    }
  }

  /** The alert comment "Investigated" by a@example.com, without a timestamp, on a host that
      renders epoch 0 as 1970-01-01 00:00:00: a ticket already holding the copy posted for it
      receives it again. */
  lemma UndatedExampleReposted(fmt: Formatter, accepted: PostOracle)
    requires fmt(0) == "1970-01-01 00:00:00"
    ensures var c := AlertComment(Some("a@example.com"), None, Some("Investigated"));
      var posted := CommentDocument("Investigated", "a@example.com", "", fmt);
      SyncTicket([posted], [c], fmt, accepted).attempts == [Attempt("a@example.com", "Investigated", "", accepted(0))]
  {
    var c := AlertComment(Some("a@example.com"), None, Some("Investigated"));
    var posted := CommentDocument("Investigated", "a@example.com", "", fmt);
    UndatedCopyLacksUnknownDate(fmt);
    UndatedNeverRecognised([posted], RecordOf(c), fmt);
    SingleCommentDecision([posted], c, fmt, accepted);
  }

  /** The copy posted for the undated comment "Investigated" by a@example.com, with epoch 0
      rendered as 1970-01-01 00:00:00, does not contain "Unknown Date": it has no `U`. */
  lemma UndatedCopyLacksUnknownDate(fmt: Formatter)
    requires fmt(0) == "1970-01-01 00:00:00"
    ensures !IsSubstring(UnknownDate, Flatten(CommentDocument("Investigated", "a@example.com", "", fmt)))
  {
    var flat := Flatten(CommentDocument("Investigated", "a@example.com", "", fmt));
    assert ParseTimestamp("") == 0;
    assert flat == "Comment from CrowdStrike by " + "a@example.com" + " on " + "1970-01-01 00:00:00" + ":" + "Investigated";
    assert 'U' !in flat;
    assert UnknownDate[0] == 'U';
    if IsSubstring(UnknownDate, flat) {
      SubstringKeepsChars(UnknownDate, flat, 'U');
    }
  }

  /** The alert comment "Investigated" by a@example.com at 2024-01-01T00:00:00.000Z: the
      first pass over a ticket without comments posts it. */
  lemma DatedExampleFirstPass(fmt: Formatter, accepted: PostOracle)
    ensures var c := AlertComment(Some("a@example.com"), Some("2024-01-01T00:00:00.000Z"), Some("Investigated"));
      SyncTicket([], [c], fmt, accepted).attempts
        == [Attempt("a@example.com", "Investigated", "2024-01-01T00:00:00.000Z", accepted(0))]
  {
    var c := AlertComment(Some("a@example.com"), Some("2024-01-01T00:00:00.000Z"), Some("Investigated"));
    assert ExistingTexts([]) == {};
    SingleCommentDecision([], c, fmt, accepted);
  }

  /** The copy posted for the comment "Investigated" by a@example.com at
      2024-01-01T00:00:00.000Z flattens to the attribution line for a@example.com at
      2024-01-01 00:00:00 followed by the text, when the host renders epoch 1704067200 in UTC. */
  lemma DatedExampleDocument(fmt: Formatter)
    requires fmt(1704067200) == "2024-01-01 00:00:00"
    ensures Flatten(CommentDocument("Investigated", "a@example.com", "2024-01-01T00:00:00.000Z", fmt))
      == Prefix("a@example.com", "2024-01-01 00:00:00") + "Investigated"
  {
    ParseExample();
    assert PostedTime("2024-01-01T00:00:00.000Z", fmt) == "2024-01-01 00:00:00";
  }

  /** The comment "Investigated" by a@example.com at 2024-01-01T00:00:00.000Z, second pass:
      the ticket holding the copy posted for it gets nothing new. */
  lemma DatedExampleSecondPass(fmt: Formatter, accepted: PostOracle)
    ensures var c := AlertComment(Some("a@example.com"), Some("2024-01-01T00:00:00.000Z"), Some("Investigated"));
      var posted := CommentDocument("Investigated", "a@example.com", "2024-01-01T00:00:00.000Z", fmt);
      && SyncTicket([posted], [c], fmt, accepted).attempts == []
      && SyncTicket([posted], [c], fmt, accepted).syncedCount == 0
  {
    var c := AlertComment(Some("a@example.com"), Some("2024-01-01T00:00:00.000Z"), Some("Investigated"));
    var posted := CommentDocument("Investigated", "a@example.com", "2024-01-01T00:00:00.000Z", fmt);
    DatedCopyRecognised([posted], RecordOf(c), fmt);
    SingleCommentDecision([posted], c, fmt, accepted);
  }

  /** The attribution line carries the rendered time after the author. */
  lemma PrefixTime(author: string, t: string)
    ensures |Prefix(author, t)| == 33 + |author| + |t|
    ensures Prefix(author, t)[32 + |author|..32 + |author| + |t|] == t
  {
    var head := "Comment from CrowdStrike by " + author + " on ";
    assert |head| == 32 + |author|;
    assert Prefix(author, t) == head + t + ":";
    assert (head + t + ":")[|head|..|head| + |t|] == t;
  }

  /** The attribution line starts with a `C` that does not recur in its next twelve characters. */
  lemma PrefixHead(author: string, t: string, k: int)
    requires 1 <= k <= 12
    ensures Prefix(author, t)[0] == 'C' && Prefix(author, t)[k] != 'C'
  {
    var rest := "omment from ";
    assert "Comment from CrowdStrike by " == "C" + rest + "CrowdStrike by ";
    assert Prefix(author, t) == "C" + rest + ("CrowdStrike by " + author + " on " + t + ":");
    assert 'C' !in rest;
    assert Prefix(author, t)[k] == rest[k - 1];
  }

  /** The attribution line for one rendering of the time is not found in a copy posted with
      another rendering of the same length, when the comment text is at most twelve characters:
      the line could only start at one of the first thirteen offsets, at offset 0 the times
      differ, and at the others the copy has no `C` where the line starts with one. */
  lemma {:induction false} ShiftedTimeNotFound(author: string, t1: string, t2: string, text: string)
    requires |t1| == |t2| && t1 != t2 && |text| <= 12
    ensures !IsSubstring(Prefix(author, t2), Prefix(author, t1) + text)
  {
    var p := Prefix(author, t2);
    var q := Prefix(author, t1);
    var f := q + text;
    PrefixTime(author, t1);
    PrefixTime(author, t2);
    if IsSubstring(p, f) {
      var k :| 0 <= k <= |f| - |p| && OccursAt(p, f, k);
      if k == 0 {
        assert false;
      } else {
        PrefixHead(author, t2, k);
        PrefixHead(author, t1, k);
        assert false;
      }
    }
  }

  /** A second run that renders a dated comment's time differently from the run that posted
      it, with the same number of characters as `strftime` gives, posts the comment again when
      its text is at most twelve characters long. */
  lemma ChangedRenderingReposts(c: AlertComment, fmt1: Formatter, fmt2: Formatter, accepted: PostOracle)
    requires RecordOf(c).text != "" && |RecordOf(c).text| <= 12 && RecordOf(c).timestamp != ""
    requires var ts := RecordOf(c).timestamp;
      |PostedTime(ts, fmt1)| == |PostedTime(ts, fmt2)| && PostedTime(ts, fmt1) != PostedTime(ts, fmt2)
    ensures var r := RecordOf(c);
      SyncTicket([CommentDocument(r.text, r.author, r.timestamp, fmt1)], [c], fmt2, accepted).attempts
        == [Attempt(r.author, r.text, r.timestamp, accepted(0))]
  {
    var r := RecordOf(c);
    var posted := CommentDocument(r.text, r.author, r.timestamp, fmt1);
    var flat := Flatten(posted);
    var prefix := Prefix(r.author, CheckedTime(r.timestamp, fmt2));
    CheckedTimeMatchesPosted(r.timestamp, fmt2);
    ShiftedTimeNotFound(r.author, PostedTime(r.timestamp, fmt1), PostedTime(r.timestamp, fmt2), r.text);
    assert !IsSubstring(prefix, flat);
    assert ExistingTexts([posted]) == {flat};
    assert !AlreadySynced(ExistingTexts([posted]), prefix, r.text);
    SingleCommentDecision([posted], c, fmt2, accepted);
  }

  /** Idempotence needs one rendering for both runs: a second run on a host one hour east of
      UTC renders 2024-01-01T00:00:00.000Z as 01:00:00 and posts the comment "Investigated" by
      a@example.com again to a ticket holding the copy a UTC run posted for it. */
  lemma RenderingChangeReposts(fmt1: Formatter, fmt2: Formatter, accepted: PostOracle)
    requires fmt1(1704067200) == "2024-01-01 00:00:00" && fmt2(1704067200) == "2024-01-01 01:00:00"
    ensures var c := AlertComment(Some("a@example.com"), Some("2024-01-01T00:00:00.000Z"), Some("Investigated"));
      var posted := CommentDocument("Investigated", "a@example.com", "2024-01-01T00:00:00.000Z", fmt1);
      SyncTicket([posted], [c], fmt2, accepted).attempts
        == [Attempt("a@example.com", "Investigated", "2024-01-01T00:00:00.000Z", accepted(0))]
  {
    var c := AlertComment(Some("a@example.com"), Some("2024-01-01T00:00:00.000Z"), Some("Investigated"));
    assert RecordOf(c) == Record("a@example.com", "Investigated", "2024-01-01T00:00:00.000Z");
    UtcAndUtcPlusOne(fmt1, fmt2);
    ChangedRenderingReposts(c, fmt1, fmt2, accepted);
  }

  /** Midnight UTC and one o'clock render to different strings of the same length. */
  lemma UtcAndUtcPlusOne(fmt1: Formatter, fmt2: Formatter)
    requires fmt1(1704067200) == "2024-01-01 00:00:00" && fmt2(1704067200) == "2024-01-01 01:00:00"
    ensures var ts := "2024-01-01T00:00:00.000Z";
      |PostedTime(ts, fmt1)| == |PostedTime(ts, fmt2)| && PostedTime(ts, fmt1) != PostedTime(ts, fmt2)
  {
    ParseExample();
    assert "2024-01-01 00:00:00"[12] != "2024-01-01 01:00:00"[12];
  }

  /** A ticket whose description mentions two alert ids appears in two mapped entries. The
      second entry fetches the ticket's comments after the first entry's posts, so when the
      fetched list holds the copies the tracker created for the first entry, a dated comment
      the first entry posted is not posted again for the second: a comment both alerts share
      reaches the ticket once. The fetched list is an input, so the lemma states the containment
      it needs rather than the ticket key the two entries share. */
  lemma LaterEntrySkipsEarlierCopy(
    entries: seq<MappedEntry>, existingOf: nat -> seq<Body>, fmt: Formatter, accepted: (nat, nat) -> bool,
    i1: nat, i2: nat, j: int, k: int)
    requires i1 < i2 < |entries|
    requires var out := SyncComments(entries, existingOf, fmt, accepted);
      && (forall b | b in CreatedDocuments(out[i1].attempts, fmt) :: b in existingOf(i2))
      && 0 <= j < |out[i1].attempts| && out[i1].attempts[j].created && out[i1].attempts[j].timestamp != ""
      && 0 <= k < |out[i2].attempts|
    ensures var out := SyncComments(entries, existingOf, fmt, accepted);
      RecordOfAttempt(out[i2].attempts[k]) != RecordOfAttempt(out[i1].attempts[j])
  {
    var out := SyncComments(entries, existingOf, fmt, accepted);
    var a := out[i1].attempts[j];
    SyncCommentsIndependent(entries, existingOf, accepted, entries, existingOf, accepted, fmt, i1);
    SyncCommentsIndependent(entries, existingOf, accepted, entries, existingOf, accepted, fmt, i2);
    CreatedDocumentsContains(out[i1].attempts, fmt, j);
    DatedCopyRecognised(existingOf(i2), RecordOfAttempt(a), fmt);
  }
}
