/**
 * The default report, `get_slurm_usage`: one row per `sshare` record whose
 * usage and limit descriptors both carry a billing token, with the
 * allocation, the remaining and used service units and the percentage used.
 */
module Summary {
  import opened Wrappers
  import opened Sshare
  import opened Billing
  import opened Usage
  import opened Text

  datatype SummaryRow = SummaryRow(
    account: string,
    user: string,
    allocation: nat,
    remaining: int,
    used: nat,
    usedPercent: real)

  /** Both descriptors of the record carry a billing token. */
  predicate HasBilling(r: Record) {
    BillingToken(r.grpTresRaw).Some? && BillingToken(r.grpTresMins).Some?
  }

  /**
   * The row the loop body appends for one record, or None when it skips it:
   * usage is the raw token, allocation the limit token.
   */
  function RowFor(r: Record): (row: Option<SummaryRow>)
    ensures row.Some? <==> HasBilling(r)
  {
    var used := BillingToken(r.grpTresRaw);
    var allocation := BillingToken(r.grpTresMins);
    if used.Some? && allocation.Some? then
      Some(SummaryRow(r.account, r.user, allocation.value, allocation.value - used.value,
                      used.value, Percent(used.value, allocation.value)))
    else None
  }

  function RowsFor(r: Record): seq<SummaryRow> {
    match RowFor(r)
    case Some(row) => [row]
    case None => []
  }

  /** The rows of the whole report: each record's row, in input order, none merged. */
  function SummaryRows(records: seq<Record>): seq<SummaryRow>
  {
    if records == [] then [] else RowsFor(records[0]) + SummaryRows(records[1..])
  }

  /** The number of records that carry both billing tokens. */
  function CountBilled(records: seq<Record>): nat
  {
    if records == [] then 0 else (if HasBilling(records[0]) then 1 else 0) + CountBilled(records[1..])
  }

  /** The report of a concatenation is the report of each part, one after the other. */
  lemma {:induction false} SummaryAppend(a: seq<Record>, b: seq<Record>)
    ensures SummaryRows(a + b) == SummaryRows(a) + SummaryRows(b)
  {
    if a != [] {
      assert (a + b)[1..] == a[1..] + b;
      SummaryAppend(a[1..], b);
    } else {
      assert a + b == b;
    }
  }

  /**
   * Record `i` contributes exactly its own row, at its own place: after the
   * rows of the records before it and before those of the records after it.
   */
  lemma {:induction false} SummaryAt(records: seq<Record>, i: nat)
    requires i < |records|
    ensures SummaryRows(records) == SummaryRows(records[..i]) + RowsFor(records[i]) + SummaryRows(records[i + 1..])
  {
    assert records == records[..i] + ([records[i]] + records[i + 1..]);
    SummaryAppend(records[..i], [records[i]] + records[i + 1..]);
    assert ([records[i]] + records[i + 1..])[1..] == records[i + 1..];
  }

  /** One row per record that has both billing tokens, and no other row. */
  lemma {:induction false} SummaryCount(records: seq<Record>)
    ensures |SummaryRows(records)| == CountBilled(records)
  {
    if records != [] {
      SummaryCount(records[1..]);
    }
  }

  /**
   * The figures of a row agree: remaining = allocation - used exactly
   * (negative when the account is over its allocation) and the percentage
   * is that of used against allocation (0 when the allocation is 0).
   */
  predicate Consistent(row: SummaryRow) {
    row.remaining == row.allocation - row.used && row.usedPercent == Percent(row.used, row.allocation)
  }

  /** Every row of the report is consistent. */
  lemma {:induction false} SummaryArithmetic(records: seq<Record>)
    ensures forall k :: 0 <= k < |SummaryRows(records)| ==> Consistent(SummaryRows(records)[k])
  {
    if records != [] {
      SummaryArithmetic(records[1..]);
    }
  }

  /** The report as the source builds it: parse the listing, then append each billed record's row. */
  method GetSlurmUsage(output: string) returns (rows: seq<SummaryRow>)
    ensures rows == SummaryRows(ParseRecords(output))
  {
    var records := ParseSshareOutput(output);
    rows := [];
    var i := 0;
    while i < |records|
      invariant 0 <= i <= |records|
      invariant rows == SummaryRows(records[..i])
    {
      var record := records[i];
      var row := RowFor(record);
      if row.Some? {
        rows := rows + [row.value];
      }
      SummaryStep(records, i);
      i := i + 1;
    }
    assert records[..i] == records;
  }

  /** Extending a prefix of the records by one adds that record's row. */
  lemma SummaryStep(records: seq<Record>, i: nat)
    requires i < |records|
    ensures SummaryRows(records[..i + 1]) == SummaryRows(records[..i]) + RowsFor(records[i])
  {
    assert records[..i + 1] == records[..i] + [records[i]];
    SummaryAppend(records[..i], [records[i]]);
  }

  /**
   * Two users of one account, each with both tokens, give two rows, one per
   * user, each with its own usage against the shared allocation.
   */
  lemma TwoUsersOneAccount(records: seq<Record>)
    requires records == [Record("phys", "alice", "billing=50", "billing=200"),
                         Record("phys", "bob", "billing=30", "billing=200")]
    ensures SummaryRows(records) == [SummaryRow("phys", "alice", 200, 150, 50, 25.0),
                                 SummaryRow("phys", "bob", 200, 170, 30, 15.0)]
  {
    TokenOnly(records[0].grpTresRaw, 50);
    TokenOnly(records[0].grpTresMins, 200);
    TokenOnly(records[1].grpTresRaw, 30);
    assert Percent(50, 200) == 25.0 && Percent(30, 200) == 15.0;
    assert RowsFor(records[0]) == [SummaryRow("phys", "alice", 200, 150, 50, 25.0)];
    assert RowsFor(records[1]) == [SummaryRow("phys", "bob", 200, 170, 30, 15.0)];
    assert records[1..][1..] == [];
    assert SummaryRows(records[1..]) == RowsFor(records[1]);
  }

  /** A descriptor that is just one billing token. */
  lemma TokenOnly(s: string, n: nat)
    requires s == Key + NatToDecimal(n)
    ensures BillingToken(s) == Some(n)
  {
    TokenRoundTrip([], n, []);
    assert [] + Key + NatToDecimal(n) + [] == s;
  }
}
