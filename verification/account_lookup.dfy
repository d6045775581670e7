/** Resolving an alert owner's email to a tracker account id. */
module AccountLookup {
  import opened Wrappers

  /** The owner value the alert source reports for an alert without an owner. */
  const Unassigned := "Unassigned"

  /** The directory search by email: the `accountId` of each returned record, in order (None
      for a record without one), or None when the request failed or was not answered with 200. */
  type Directory = string -> Option<seq<Option<string>>>

  /** Only a non-empty email other than the sentinel is looked up. */
  predicate NeedsLookup(email: string) {
    email != "" && email != Unassigned
  }

  /** The account id of the first directory record for `email`, if any. */
  function FindAccountId(email: string, directory: Directory): (r: Option<string>)
    ensures !NeedsLookup(email) ==> r == None
    ensures r.Some? ==> NeedsLookup(email) && directory(email).Some? && |directory(email).value| > 0
                        && directory(email).value[0] == r
    ensures (NeedsLookup(email) && directory(email).Some? && |directory(email).value| > 0)
      ==> r == directory(email).value[0]
  {
    if !NeedsLookup(email) then None
    else match directory(email)
      case Some(records) => if |records| > 0 then records[0] else None
      case None => None
  }

  /** The sentinel and the empty email are answered without consulting the directory: any two
      directories give the same (absent) result. */
  lemma SentinelSkipsDirectory(email: string, d1: Directory, d2: Directory)
    requires email == "" || email == Unassigned
    ensures FindAccountId(email, d1) == FindAccountId(email, d2) == None
  {
  }

  /** Only the first record matters: records after it never change the answer. */
  lemma FirstRecordDecides(email: string, first: Option<string>, rest1: seq<Option<string>>, rest2: seq<Option<string>>,
                           d1: Directory, d2: Directory)
    requires d1(email) == Some([first] + rest1) && d2(email) == Some([first] + rest2)
    ensures FindAccountId(email, d1) == FindAccountId(email, d2)
  {
  }

  /** A failed or non-200 search answers like a search that returned no record: no account. */
  lemma FailedSearchLikeEmpty(email: string, d1: Directory, d2: Directory)
    requires d1(email) == None && d2(email) == Some([])
    ensures FindAccountId(email, d1) == FindAccountId(email, d2) == None
  {
  }
}
