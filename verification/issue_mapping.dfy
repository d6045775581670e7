/** The join of closed alerts with the open tickets that mention them: one mapped entry per
    (alert, ticket key) pair, in alert order and then in search-result order. */
module IssueMapping {
  import opened Wrappers
  import opened CommentSync

  /** A closed alert: its composite id, its owner (or the sentinel "Unassigned") and its
      comments. */
  datatype Alert = Alert(alertId: string, assigneeEmail: string, comments: seq<AlertComment>)

  /** The ticket search for one alert id: the keys of the open tickets whose description
      mentions it, newest first, or None when the request failed or was not answered with 200.
      A 200 answer without an `issues` list is `Some([])`. */
  type Search = string -> Option<seq<string>>

  /** The keys an alert contributes: none when the search failed. */
  function KeysFor(a: Alert, search: Search): seq<string> {
    search(a.alertId).GetOr([])
  }

  function EntriesFor(a: Alert, keys: seq<string>): (es: seq<MappedEntry>)
    ensures |es| == |keys|
  {
    seq(|keys|, j requires 0 <= j < |keys| => MappedEntry(keys[j], a.assigneeEmail, a.comments, a.alertId))
  }

  /** How many entries the first alerts produce. */
  function TotalKeys(alerts: seq<Alert>, search: Search): nat {
    if alerts == [] then 0 else |KeysFor(alerts[0], search)| + TotalKeys(alerts[1..], search)
  }

  /** The mapping loop of the ticket fetch. Every entry names a ticket the search returned for
      that entry's alert id. */
  function JiraFetch(alerts: seq<Alert>, search: Search): (m: seq<MappedEntry>)
    ensures |m| == TotalKeys(alerts, search)
    ensures forall k :: 0 <= k < |m| ==> search(m[k].alertId).Some? && m[k].issueKey in search(m[k].alertId).value
  {
    if alerts == [] then []
    else EntriesFor(alerts[0], KeysFor(alerts[0], search)) + JiraFetch(alerts[1..], search)
  }

  /** The fetch distributes over concatenation of the alert list. */
  lemma {:induction false} JiraFetchAppend(a: seq<Alert>, b: seq<Alert>, search: Search)
    ensures JiraFetch(a + b, search) == JiraFetch(a, search) + JiraFetch(b, search)
    ensures TotalKeys(a + b, search) == TotalKeys(a, search) + TotalKeys(b, search)
  {
    if a == [] {
      assert a + b == b;
    } else {
      assert (a + b)[1..] == a[1..] + b;
      JiraFetchAppend(a[1..], b, search);
    }
  }

  /** An alert whose search failed or found nothing contributes no entry, wherever it stands. */
  lemma UnmatchedAlertContributesNothing(a: seq<Alert>, x: Alert, b: seq<Alert>, search: Search)
    requires search(x.alertId).None? || search(x.alertId) == Some([])
    ensures JiraFetch(a + [x] + b, search) == JiraFetch(a + b, search)
  {
    JiraFetchAppend(a + [x], b, search);
    JiraFetchAppend(a, [x], search);
    JiraFetchAppend(a, b, search);
    UnmatchedSingleton(x, search);
    assert JiraFetch(a + [x], search) == JiraFetch(a, search);
  }

  lemma UnmatchedSingleton(x: Alert, search: Search)
    requires search(x.alertId).None? || search(x.alertId) == Some([])
    ensures JiraFetch([x], search) == []
  {
    assert KeysFor(x, search) == [];
    assert [x][1..] == [];
    assert JiraFetch([x], search) == EntriesFor(x, []) + JiraFetch([], search);
  }

  /** Exact placement: the `j`-th key found for the `i`-th alert is entry number
      (keys of the alerts before it) + `j`, and it copies that alert's id, owner and comments. */
  lemma JiraFetchEntry(alerts: seq<Alert>, search: Search, i: int, j: int)
    requires 0 <= i < |alerts| && 0 <= j < |KeysFor(alerts[i], search)|
    ensures var m := JiraFetch(alerts, search);
      var k := TotalKeys(alerts[..i], search) + j;
      && k < |m|
      && m[k] == MappedEntry(KeysFor(alerts[i], search)[j], alerts[i].assigneeEmail, alerts[i].comments, alerts[i].alertId)
  {
    var before := alerts[..i];
    var rest := alerts[i..];
    assert alerts == before + rest;
    JiraFetchAppend(before, rest, search);
    assert rest[0] == alerts[i];
  }
}
