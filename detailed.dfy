/**
 * The detailed report, `show_account_users`: a walk over the `sshare -a`
 * records that remembers the current account and its allocation, opening
 * each run of records of one account with a header (preceded by a
 * separator when a previous named account has rows) and listing every
 * record with a user under it.
 */
module Detailed {
  import opened Wrappers
  import opened Sshare
  import opened Billing
  import opened Usage
  import opened Resources

  /** One row of the report table. */
  datatype DetailRow =
    | Separator
    | Header(account: string)
    | UserRow(user: string, consumed: nat, usedPercent: real, resources: string)

  /**
   * What the loop reads from one record before it decides anything: the
   * account and user, the used and the limit billing amounts (0 when
   * absent) and the resource summary of the usage descriptor.
   */
  datatype Entry = Entry(account: string, user: string, consumed: nat, total: nat, resources: string)

  function Digest(r: Record): Entry {
    Entry(r.account, r.user, BillingOrZero(r.grpTresRaw), BillingOrZero(r.grpTresMins),
          ExtractResources(r.grpTresRaw))
  }

  function Digests(records: seq<Record>): (es: seq<Entry>)
    ensures |es| == |records|
  {
    if records == [] then [] else Digests(records[..|records| - 1]) + [Digest(records[|records| - 1])]
  }

  /** The loop's local state: `current_account`, `account_billing_mins` and `su_data`. */
  datatype WalkState = WalkState(current: Option<string>, allocation: nat, rows: seq<DetailRow>)

  const Start := WalkState(None, 0, [])

  /** The row listed for a user, measured against the allocation of its account. */
  function UserRowFor(e: Entry, allocation: nat): DetailRow {
    UserRow(e.user, e.consumed, Percent(e.consumed, allocation), e.resources)
  }

  /** A separator goes before a new header only after a named account that has rows. */
  predicate NeedsSeparator(st: WalkState) {
    st.current.Some? && st.current.value != "" && st.rows != []
  }

  /** One iteration of the loop. */
  function Step(st: WalkState, e: Entry): WalkState
  {
    var entered :=
      if st.current != Some(e.account) then
        var separated := if NeedsSeparator(st) then st.rows + [Separator] else st.rows;
        WalkState(Some(e.account), e.total, separated + [Header(e.account)])
      else st;
    if e.user != "" then entered.(rows := entered.rows + [UserRowFor(e, entered.allocation)])
    else entered
  }

  /** The state after the loop has seen the given entries. */
  function Walk(es: seq<Entry>): WalkState
  {
    if es == [] then Start
    else Step(Walk(es[..|es| - 1]), es[|es| - 1])
  }

  // ---------------------------------------------------------------------
  // The report described entry by entry

  /** Entry `i` starts a run of entries of one account. */
  predicate Boundary(es: seq<Entry>, i: nat)
    requires i < |es|
  {
    i == 0 || es[i - 1].account != es[i].account
  }

  /** The first entry of the run that entry `i` belongs to. */
  function RunStart(es: seq<Entry>, i: nat): (j: nat)
    requires i < |es|
    ensures j <= i && Boundary(es, j)
    ensures forall k :: j < k <= i ==> !Boundary(es, k)
  {
    if Boundary(es, i) then i else RunStart(es, i - 1)
  }

  /**
   * What entry `i` adds to the report: at the start of a run, a separator
   * when the previous account is named, then a header; then, when the entry
   * names a user, a row measured against the limit of the run's first entry.
   */
  function Contribution(es: seq<Entry>, i: nat): seq<DetailRow>
    requires i < |es|
  {
    (if Boundary(es, i) then
       (if i > 0 && es[i - 1].account != "" then [Separator] else []) + [Header(es[i].account)]
     else [])
    + (if es[i].user != "" then [UserRowFor(es[i], es[RunStart(es, i)].total)] else [])
  }

  /** The report for the first `n` entries, contribution after contribution. */
  function Expected(es: seq<Entry>, n: nat): (rows: seq<DetailRow>)
    requires n <= |es|
    ensures n > 0 ==> rows != []
  {
    if n == 0 then [] else Expected(es, n - 1) + Contribution(es, n - 1)
  }

  /** The detailed report of a listing. */
  function DetailRows(records: seq<Record>): seq<DetailRow> {
    var es := Digests(records);
    Expected(es, |es|)
  }

  /**
   * The loop's state after `n` entries, described without the loop: the
   * rows are the entry-by-entry report, the current account is the last
   * entry's, and the allocation is the limit of the first entry of the last
   * entry's run.
   */
  function StateAfter(es: seq<Entry>, n: nat): WalkState
    requires n <= |es|
  {
    if n == 0 then Start
    else WalkState(Some(es[n - 1].account), es[RunStart(es, n - 1)].total, Expected(es, n))
  }

  /** The loop after `n` entries is in the state described entry by entry. */
  lemma {:induction false} WalkExpected(es: seq<Entry>, n: nat)
    requires n <= |es|
    ensures Walk(es[..n]) == StateAfter(es, n)
  {
    if n > 0 {
      WalkExpected(es, n - 1);
      assert es[..n][..n - 1] == es[..n - 1];
      StepExpected(es, n);
    }
  }

  /** One step of the loop adds exactly the next entry's contribution. */
  lemma StepExpected(es: seq<Entry>, n: nat)
    requires 0 < n <= |es|
    ensures Step(StateAfter(es, n - 1), es[n - 1]) == StateAfter(es, n)
  {
    var st := StateAfter(es, n - 1);
    assert (st.current != Some(es[n - 1].account)) == Boundary(es, n - 1);
    if n > 1 {
      assert NeedsSeparator(st) == (es[n - 2].account != "");
    }
  }

  /** The loop over a whole listing produces the entry-by-entry report. */
  lemma WalkIsDetailRows(records: seq<Record>)
    ensures Walk(Digests(records)).rows == DetailRows(records)
  {
    var es := Digests(records);
    WalkExpected(es, |es|);
    assert es[..|es|] == es;
  }

  // ---------------------------------------------------------------------
  // What the report lists

  /** The accounts of the header rows, in order. */
  function Heads(rows: seq<DetailRow>): seq<string> {
    if rows == [] then [] else (if rows[0].Header? then [rows[0].account] else []) + Heads(rows[1..])
  }

  /** The users of the user rows, in order. */
  function Users(rows: seq<DetailRow>): seq<string> {
    if rows == [] then [] else (if rows[0].UserRow? then [rows[0].user] else []) + Users(rows[1..])
  }

  lemma {:induction false} HeadsUsersAppend(a: seq<DetailRow>, b: seq<DetailRow>)
    ensures Heads(a + b) == Heads(a) + Heads(b)
    ensures Users(a + b) == Users(a) + Users(b)
  {
    if a != [] {
      assert (a + b)[1..] == a[1..] + b;
      HeadsUsersAppend(a[1..], b);
    } else {
      assert a + b == b;
    }
  }

  /** The account of each entry that starts a run, in order. */
  function RunAccounts(es: seq<Entry>, n: nat): seq<string>
    requires n <= |es|
  {
    if n == 0 then []
    else RunAccounts(es, n - 1) + (if Boundary(es, n - 1) then [es[n - 1].account] else [])
  }

  /** The users of the entries that name one, in order. */
  function NamedUsers(es: seq<Entry>, n: nat): seq<string>
    requires n <= |es|
  {
    if n == 0 then []
    else NamedUsers(es, n - 1) + (if es[n - 1].user != "" then [es[n - 1].user] else [])
  }

  /**
   * There is one header per run of entries of one account, and it names
   * that account; there is one user row per entry that names a user, and
   * none for an entry with an empty user; both in input order.
   */
  lemma {:induction false} HeadersAndUsers(es: seq<Entry>, n: nat)
    requires n <= |es|
    ensures Heads(Expected(es, n)) == RunAccounts(es, n)
    ensures Users(Expected(es, n)) == NamedUsers(es, n)
  {
    if n > 0 {
      HeadersAndUsers(es, n - 1);
      HeadsUsersAppend(Expected(es, n - 1), Contribution(es, n - 1));
      ContributionLists(es, n - 1);
    }
  }

  /** What one entry adds: its header when it starts a run, its user when it names one. */
  lemma ContributionLists(es: seq<Entry>, i: nat)
    requires i < |es|
    ensures Heads(Contribution(es, i)) == if Boundary(es, i) then [es[i].account] else []
    ensures Users(Contribution(es, i)) == if es[i].user != "" then [es[i].user] else []
  {
    var sep: seq<DetailRow> := if i > 0 && es[i - 1].account != "" then [Separator] else [];
    var head: seq<DetailRow> := if Boundary(es, i) then sep + [Header(es[i].account)] else [];
    var user: seq<DetailRow> := if es[i].user != "" then [UserRowFor(es[i], es[RunStart(es, i)].total)] else [];
    assert Contribution(es, i) == head + user;
    HeadsUsersAppend(head, user);
    HeadsUsersAppend(sep, [Header(es[i].account)]);
    assert [Header(es[i].account)][1..] == [];
    assert user != [] ==> user[1..] == [];
  }

  /** Every separator is immediately followed by a header. */
  predicate SeparatorsBeforeHeaders(rows: seq<DetailRow>) {
    forall k :: 0 <= k < |rows| && rows[k].Separator? ==> k + 1 < |rows| && rows[k + 1].Header?
  }

  /**
   * The report opens with a header, and a separator only ever stands
   * directly before the header of the next account.
   */
  lemma {:induction false} ReportShape(es: seq<Entry>, n: nat)
    requires n <= |es|
    ensures n > 0 ==> Expected(es, n)[0].Header?
    ensures SeparatorsBeforeHeaders(Expected(es, n))
  {
    if n > 0 {
      ReportShape(es, n - 1);
      var prev, c := Expected(es, n - 1), Contribution(es, n - 1);
      var rows := prev + c;
      assert c != [] && c[0].Separator? ==> |c| > 1 && c[1].Header?;
      forall k | 0 <= k < |rows| && rows[k].Separator?
        ensures k + 1 < |rows| && rows[k + 1].Header?
      {
        if k < |prev| {
          assert prev[k].Separator?;
        } else {
          assert c[k - |prev|].Separator?;
        }
      }
    }
  }

  /**
   * Two accounts, each an account row followed by a user row: users are
   * measured against their account row's limit (not their own), an account
   * without a limit gives 0%, and a separator divides the two accounts.
   */
  lemma TwoAccounts(es: seq<Entry>)
    requires es == [Entry("phys", "", 0, 200, ""), Entry("phys", "alice", 50, 0, "cpu=4"),
                    Entry("chem", "", 0, 0, ""), Entry("chem", "bob", 10, 0, "")]
    ensures Expected(es, |es|) == [Header("phys"), UserRow("alice", 50, 25.0, "cpu=4"),
                                   Separator, Header("chem"), UserRow("bob", 10, 0.0, "")]
  {
    assert RunStart(es, 1) == 0 && RunStart(es, 3) == 2;
    assert Percent(50, 200) == 25.0;
    assert Contribution(es, 0) == [Header("phys")];
    assert Contribution(es, 1) == [UserRow("alice", 50, 25.0, "cpu=4")];
    assert Contribution(es, 2) == [Separator, Header("chem")];
    assert Contribution(es, 3) == [UserRow("bob", 10, 0.0, "")];
    assert Expected(es, 1) == [] + Contribution(es, 0);
    assert Expected(es, 2) == [Header("phys"), UserRow("alice", 50, 25.0, "cpu=4")];
    assert Expected(es, 3) == Expected(es, 2) + [Separator, Header("chem")];
  }

  /** The report as the source builds it: parse the listing, then walk its records. */
  method ShowAccountUsers(output: string) returns (rows: seq<DetailRow>)
    ensures rows == Walk(Digests(ParseRecords(output))).rows
    ensures rows == DetailRows(ParseRecords(output))
  {
    var records := ParseSshareOutput(output);
    rows := [];
    var current: Option<string> := None;
    var allocation: nat := 0;
    var i := 0;
    while i < |records|
      invariant 0 <= i <= |records|
      invariant WalkState(current, allocation, rows) == Walk(Digests(records[..i]))
    {
      WalkPrefix(records, i);
      var record := records[i];
      var suValueRaw := BillingOrZero(record.grpTresRaw);
      var totalSu := BillingOrZero(record.grpTresMins);
      if current != Some(record.account) {
        if current.Some? && current.value != "" && rows != [] {
          rows := rows + [Separator];
        }
        rows := rows + [Header(record.account)];
        current := Some(record.account);
        allocation := totalSu;
      }
      if record.user != "" {
        var usagePercent := Percent(suValueRaw, allocation);
        var resourcesUsed := ExtractResources(record.grpTresRaw);
        rows := rows + [UserRow(record.user, suValueRaw, usagePercent, resourcesUsed)];
      }
      i := i + 1;
    }
    assert records[..i] == records;
    WalkIsDetailRows(records);
  }

  /** Walking one more record is one more step, on that record's figures. */
  lemma WalkPrefix(records: seq<Record>, i: nat)
    requires i < |records|
    ensures Walk(Digests(records[..i + 1])) == Step(Walk(Digests(records[..i])), Digest(records[i]))
  {
    assert records[..i + 1][..i] == records[..i];
    var es, d := Digests(records[..i]), Digest(records[i]);
    assert Digests(records[..i + 1]) == es + [d];
    assert (es + [d])[..i] == es;
  }
}
