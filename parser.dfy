/**
 * `parse_sshare_output`: the pipe-delimited text printed by
 * `sshare -o account,user,GrpTRESRaw,GrpTRESMins -P`, turned into records.
 */
module Sshare {
  import opened Text

  /** One row of the `sshare` listing. An empty user marks the account's own row. */
  datatype Record = Record(account: string, user: string, grpTresRaw: string, grpTresMins: string)

  /** The lines of the whole output once it is stripped; the first is the header. */
  function Lines(output: string): seq<string>
  {
    Split(Strip(output), '\n')
  }

  /** The k-th field, stripped, or "" when the line has fewer fields. */
  function Field(fields: seq<string>, k: nat): string
  {
    if k < |fields| then Strip(fields[k]) else ""
  }

  /**
   * One data line: strip it, split it on `|`, strip each field, pad missing
   * trailing fields with "" and ignore any past the fourth.
   */
  function ParseLine(line: string): Record
  {
    var fields := Split(Strip(line), '|');
    Record(Strip(fields[0]), Field(fields, 1), Field(fields, 2), Field(fields, 3))
  }

  /** Every parsed field is trimmed at both ends. */
  lemma ParseLineStripped(line: string)
    ensures var r := ParseLine(line);
            Stripped(r.account) && Stripped(r.user) && Stripped(r.grpTresRaw) && Stripped(r.grpTresMins)
  {
  }

  /** `f` applied to each element, in order. */
  function Map<A, B>(f: A -> B, xs: seq<A>): (ys: seq<B>)
    ensures |ys| == |xs|
  {
    seq(|xs|, i requires 0 <= i < |xs| => f(xs[i]))
  }

  /** Mapping a slice that is one element longer appends that element's image. */
  lemma MapSnoc<A, B>(f: A -> B, xs: seq<A>, lo: nat, hi: nat)
    requires lo <= hi < |xs|
    ensures Map(f, xs[lo..hi + 1]) == Map(f, xs[lo..hi]) + [f(xs[hi])]
  {
    var a, b := Map(f, xs[lo..hi + 1]), Map(f, xs[lo..hi]) + [f(xs[hi])];
    forall k | 0 <= k < |a|
      ensures a[k] == b[k]
    {
      if k < hi - lo {
        assert xs[lo..hi + 1][k] == xs[lo..hi][k];
      }
    }
  }

  /** Each line parsed on its own, in order. */
  function ParseLines(lines: seq<string>): seq<Record>
  {
    Map(ParseLine, lines)
  }

  /**
   * The records of the whole output: one per line after the header, so as
   * many as there are newlines in the stripped text; empty or header-only
   * text gives none.
   */
  function ParseRecords(output: string): (records: seq<Record>)
    ensures |records| == CountChar(Strip(output), '\n')
    ensures '\n' !in Strip(output) ==> records == []
  {
    ParseLines(Lines(output)[1..])
  }

  /** The parser as the source runs it: a loop appending one record per line. */
  method ParseSshareOutput(output: string) returns (records: seq<Record>)
    ensures records == ParseRecords(output)
  {
    var lines := Split(Strip(output), '\n');
    records := [];
    var i := 1;
    while i < |lines|
      invariant 1 <= i <= |lines|
      invariant records == ParseLines(lines[1..i])
    {
      MapSnoc(ParseLine, lines, 1, i);
      records := records + [ParseLine(lines[i])];
      i := i + 1;
    }
    assert lines[1..i] == Lines(output)[1..];
  }

  // ---------------------------------------------------------------------
  // The inverse direction: printing records the way sshare -P does

  /** A field sshare can print unambiguously: no delimiter, no newline, no outer blanks. */
  predicate PrintableField(f: string) {
    Stripped(f) && '|' !in f && '\n' !in f
  }

  predicate Printable(r: Record) {
    PrintableField(r.account) && PrintableField(r.user)
    && PrintableField(r.grpTresRaw) && PrintableField(r.grpTresMins)
  }

  function Fields(r: Record): seq<string> {
    [r.account, r.user, r.grpTresRaw, r.grpTresMins]
  }

  function RenderLine(r: Record): string {
    Join(Fields(r), "|")
  }

  /** The header line followed by one line per record. */
  function RenderOutput(header: string, records: seq<Record>): string {
    Join([header] + seq(|records|, i requires 0 <= i < |records| => RenderLine(records[i])), "\n")
  }

  /** A printed line has no outer blanks and no newline. */
  lemma RenderLineShape(r: Record)
    requires Printable(r)
    ensures RenderLine(r) != [] && Stripped(RenderLine(r)) && '\n' !in RenderLine(r)
  {
    var line := RenderLine(r);
    var f := Fields(r);
    assert f[1..][1..][1..] == [r.grpTresMins];
    assert f[1..][1..] == [r.grpTresRaw, r.grpTresMins];
    assert Join(f[1..][1..][1..], "|") == r.grpTresMins;
    var last := Join(f[1..][1..], "|");
    assert last == r.grpTresRaw + "|" + r.grpTresMins;
    var tail := Join(f[1..], "|");
    assert tail == r.user + "|" + last;
    assert line == r.account + "|" + tail;
    assert line[0] == if r.account == [] then '|' else r.account[0];
    assert line[|line| - 1] == if r.grpTresMins == [] then '|' else r.grpTresMins[|r.grpTresMins| - 1];
    JoinFree(Fields(r), "|", '\n');
  }

  /** Parsing a printed line gives the record back. */
  lemma ParseRenderLine(r: Record)
    requires Printable(r)
    ensures ParseLine(RenderLine(r)) == r
  {
    RenderLineShape(r);
    StripStripped(RenderLine(r));
    SplitJoin(Fields(r), '|');
    StripStripped(r.account);
    StripStripped(r.user);
    StripStripped(r.grpTresRaw);
    StripStripped(r.grpTresMins);
  }

  /** The k-th of the given fields, or "" past the end. */
  function FieldOr(fs: seq<string>, k: nat): string {
    if k < |fs| then fs[k] else ""
  }

  /**
   * A line of any number of fields: the record takes the first four, blank
   * ones stand in for fields the line lacks, and fields after the fourth
   * are dropped.
   */
  lemma ParseLineFields(fs: seq<string>)
    requires |fs| > 0
    requires forall k :: 0 <= k < |fs| ==> PrintableField(fs[k])
    ensures ParseLine(Join(fs, "|")) == Record(fs[0], FieldOr(fs, 1), FieldOr(fs, 2), FieldOr(fs, 3))
  {
    var line := Join(fs, "|");
    JoinStrippedSep(fs, "|");
    StripStripped(line);
    SplitJoin(fs, '|');
    forall k | 0 <= k < |fs|
      ensures Strip(fs[k]) == fs[k]
    {
      StripStripped(fs[k]);
    }
  }

  /** Parsing printed output gives back exactly the printed records, in order. */
  lemma ParseRenderOutput(header: string, records: seq<Record>)
    requires header != [] && Stripped(header) && '\n' !in header
    requires forall i :: 0 <= i < |records| ==> Printable(records[i])
    ensures ParseRecords(RenderOutput(header, records)) == records
  {
    var lines := [header] + seq(|records|, i requires 0 <= i < |records| => RenderLine(records[i]));
    var out := RenderOutput(header, records);
    assert out == Join(lines, "\n");
    forall k | 1 <= k < |lines|
      ensures lines[k] != [] && Stripped(lines[k]) && '\n' !in lines[k]
    {
      RenderLineShape(records[k - 1]);
    }
    JoinStripped(lines, "\n");
    StripStripped(out);
    SplitJoin(lines, '\n');
    assert Lines(out) == lines;
    var parsed := ParseRecords(out);
    assert |parsed| == |records|;
    forall i | 0 <= i < |records|
      ensures parsed[i] == records[i]
    {
      assert parsed[i] == ParseLine(lines[1..][i]);
      ParseRenderLine(records[i]);
    }
  }
}
