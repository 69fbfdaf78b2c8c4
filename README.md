# scredits in Dafny

scredits reports how many Slurm service units (SU) each account and user has
used. It reads the pipe-delimited listing printed by
`sshare -o account,user,GrpTRESRaw,GrpTRESMins -P`. `GrpTRESRaw` is the usage
descriptor, for example `cpu=4,mem=8,billing=120`, and `GrpTRESMins` is the
limit descriptor. The program builds two reports from the listing.

This project models the logic of `scredits/scredits.py` that turns that text
into report rows, and proves what the rows contain:

- `parser.dfy` (module `Sshare`): `parse_sshare_output`. It strips the text,
  splits it into lines, drops the header line, splits each remaining line on
  `|`, strips each field and pads missing fields with `""`.
- `billing.dfy` (module `Billing`): the search `re.search(r'billing=(\d+)', …)`
  and `int()` of the captured digits. The search is unanchored: it finds the
  leftmost `billing=` that is followed by a digit, even when it ends a longer
  key.
- `usage.dfy` (module `Usage`): the percentage of the allocation that has been
  used, which is 0 when there is no allocation.
- `summary.dfy` (module `Summary`): the loop of `get_slurm_usage`. It produces
  one row per record that has both a usage and a limit billing amount.
- `detailed.dfy` (module `Detailed`): the loop of `show_account_users`.
  - The loop is a state machine over the current account, its allocation and
    the rows produced so far.
  - It is defined twice: as the loop itself (`Walk`, and the method
    `ShowAccountUsers`), and record by record (`Expected`).
  - Both definitions are proved to produce the same rows.
- `resources.dfy` (module `Resources`): `extract_resources`. It scans
  `re.findall(r'(\w+)=(\d+)', …)`, keeps the keys cpu, mem and gpu, and joins
  the pairs with `", "`.
- `text.dfy` (module `Text`): the Python string operations used above:
  - `str.strip()`, `str.split(c)` and `sep.join(…)`;
  - the ASCII classes behind `\d` and `\w`;
  - `int()` and `str()` of natural numbers.
- `wrappers.dfy` (module `Wrappers`): the `Option` type.

The output of `sshare` is a parameter, not a subprocess call. Percentages are
exact reals, `100 * used / allocation`.

Two behaviours of the code are worth knowing, and the model keeps both:

- The default report (`scredits/scredits.py:37-60`) is not grouped per
  account. It has one row per record with both billing amounts, and the
  account's own row, whose user is empty, is among them.
- The billing search (`scredits/scredits.py:44`) is not anchored, so
  `subbilling=5` yields 5.

## Model

| member | source | states |
|---|---|---|
| Text.Strip | scredits/scredits.py:7 | `strip()` returns a slice of its input; everything cut from either end is whitespace, and the result neither starts nor ends with whitespace |
| Text.StripStripped | scredits/scredits.py:13-16 | stripping a string that is already stripped leaves it unchanged |
| Text.Split | scredits/scredits.py:7 | `split(c)` returns one more piece than there are separators, and no piece contains the separator |
| Text.JoinSplit | scredits/scredits.py:12 | joining the pieces of a split with the separator gives the original string back |
| Text.SplitJoin | scredits/scredits.py:12 | splitting a join of separator-free pieces gives the same pieces back |
| Text.DigitRunEnd | scredits/scredits.py:44 | greedy `\d+` takes a run of digits that cannot be extended |
| Text.WordRunEnd | scredits/scredits.py:121 | greedy `\w+` takes a run of word characters that cannot be extended |
| Text.Join | scredits/scredits.py:122 | `sep.join(parts)`; `Text.JoinSplit` and `Text.SplitJoin` prove it inverse to `split`, and `Text.JoinStrippedSep` that it adds no outer whitespace when the pieces and the separator have none |
| Text.JoinStrippedSep | scredits/scredits.py:12-16 | a line of fields joined with a pipe without outer whitespace, empty fields included, has none itself, so stripping the line leaves its fields intact |
| Text.DecimalValue | scredits/scredits.py:48-49 | `int()` of a digit string; `Text.DecimalRoundTrip` proves it undoes the decimal rendering of every natural number |
| Text.DecimalRoundTrip | scredits/scredits.py:48 | `int()` of the decimal rendering of n is n |
| Sshare.ParseLine | scredits/scredits.py:12-17 | one line as a record; `Sshare.ParseLineStripped`, `Sshare.ParseLineFields` and `Sshare.ParseRenderLine` state its fields, its padding and truncation, and its round trip |
| Sshare.ParseLineStripped | scredits/scredits.py:12-16 | each of the four fields of a parsed record has no whitespace at either end |
| Sshare.ParseLineFields | scredits/scredits.py:12-17 | for any line of one or more printable fields, empty ones included, the record takes the first four fields; a missing field is `""` and fields past the fourth are ignored |
| Sshare.ParseRecords | scredits/scredits.py:7-11 | there is one record per line after the header, so as many records as newlines in the stripped text; empty or header-only text gives no records |
| Sshare.ParseSshareOutput | scredits/scredits.py:6-20 | the appending loop produces exactly the records of `ParseRecords` |
| Sshare.ParseRenderLine | scredits/scredits.py:12-17 | parsing a line printed from a record (fields without a pipe, a newline or outer blanks) gives that record back |
| Sshare.ParseRenderOutput | scredits/scredits.py:6-20 | parsing a header followed by printed records gives back exactly those records, in order |
| Billing.FirstToken | scredits/scredits.py:44 | returns the leftmost position at or after `from` where `billing=` is followed by a digit; None means there is no such position |
| Billing.BillingToken | scredits/scredits.py:44-45 | Some exactly when some `billing=` is followed by a digit; its value is the digit run after the leftmost such occurrence |
| Billing.BillingOrZero | scredits/scredits.py:93-94 | the billing amount, or 0 when there is none |
| Billing.TokenRoundTrip | scredits/scredits.py:90-91 | `billing=<n>` after a match-free prefix ending at a comma, and before anything that is not a digit, yields exactly n |
| Billing.BillingAmongOtherKeys | scredits/scredits.py:44 | `cpu=4,billing=120,mem=8` yields 120 |
| Billing.LongerKeyMatches | scredits/scredits.py:44 | `subbilling=5` yields 5, because the search is unanchored |
| Billing.NoTokenReadsZero | scredits/scredits.py:90-94 | `billing=` without digits is no match, and the detailed view reads it as 0 |
| Usage.Percent | scredits/scredits.py:51 | the percentage is never negative and is 0 when the allocation is 0 |
| Usage.PercentOfAllocation | scredits/scredits.py:105-106 | with an allocation, percent × allocation = 100 × used, and percent ≤ 100 exactly when used ≤ allocation |
| Resources.MatchAt | scredits/scredits.py:121 | a match tried at p starts at p, and its key, `=` and value lie in order inside the string |
| Resources.MatchAtCorrect | scredits/scredits.py:121 | trying the pattern at a position agrees, both ways, with the declarative definition of a `(\w+)=(\d+)` match |
| Resources.FindAll | scredits/scredits.py:121 | the matches found lie at or after the scan's start, in order, and do not overlap |
| Resources.FindAllSound | scredits/scredits.py:121 | every match the scan reports is a genuine match |
| Resources.FindAllCovers | scredits/scredits.py:121 | no match is missed: each position where the pattern matches starts a reported match or lies inside one |
| Resources.FirstKeyWholeWord | scredits/scredits.py:121 | when the scan skips ahead to its first match, the character before that match is not a word character |
| Resources.KeysAreWholeWords | scredits/scredits.py:121 | a reported key is never the tail of a longer word, unless it directly follows the previous match |
| Resources.KeyNotInsideWord | scredits/scredits.py:121 | the whole-word property for a scan of the whole descriptor |
| Resources.Kept | scredits/scredits.py:122 | the filter keeps only matches whose key is cpu, mem or gpu |
| Resources.KeptAppend | scredits/scredits.py:122 | filtering keeps order: filtering a concatenation gives the filtered parts in turn |
| Resources.KeptExactly | scredits/scredits.py:122 | every cpu, mem or gpu match is kept, and nothing else appears |
| Resources.PairIsMatchedText | scredits/scredits.py:122 | a `key=value` pair written back is exactly the matched text |
| Resources.KeptInOrder | scredits/scredits.py:121-122 | the kept matches are in input order and do not overlap |
| Resources.ExtractResources | scredits/scredits.py:120-123 | `extract_resources`; `Resources.ExtractResourcesText` and `Resources.ExtractResourcesEmpty` state what its result is made of and when it is empty |
| Resources.ExtractResourcesText | scredits/scredits.py:120-123 | the resource string is the `", "`-join of the matched text of each kept match; the kept matches are genuine, in order, and all have key cpu, mem or gpu |
| Resources.KeptEmpty | scredits/scredits.py:122 | nothing is kept exactly when no key is cpu, mem or gpu |
| Resources.ExtractResourcesEmpty | scredits/scredits.py:120-123 | the resource string is empty exactly when no cpu, mem or gpu pair is found |
| Resources.LongerKeyDropped | scredits/scredits.py:121-122 | `subcpu=3` gives an empty resource string |
| Summary.RowFor | scredits/scredits.py:44-60 | a record gives a row exactly when both its descriptors carry a billing amount |
| Summary.SummaryRows | scredits/scredits.py:37-60 | the rows of the default report, record by record; `Summary.SummaryAppend`, `Summary.SummaryAt`, `Summary.SummaryCount` and `Summary.SummaryArithmetic` state their order, number and figures |
| Summary.SummaryAppend | scredits/scredits.py:37-60 | the rows for a concatenation of listings are the rows of each listing in turn; no rows are merged |
| Summary.SummaryAt | scredits/scredits.py:37-60 | record i contributes its own row at its own place, after the rows of the records before it |
| Summary.SummaryCount | scredits/scredits.py:47 | there is one row per record with both billing amounts, and no other row |
| Summary.SummaryArithmetic | scredits/scredits.py:48-51 | in every row, remaining = allocation − used exactly (possibly negative), and the percentage is that of used against allocation, 0 when the allocation is 0 |
| Summary.GetSlurmUsage | scredits/scredits.py:34-60 | the parse-and-append loop produces exactly `SummaryRows` of the parsed records |
| Summary.SummaryStep | scredits/scredits.py:37-60 | one more record adds that record's rows at the end |
| Summary.TwoUsersOneAccount | scredits/scredits.py:37-60 | two users of one account give two rows, (200, 150, 50, 25%) and (200, 170, 30, 15%), not one merged row |
| Detailed.Step | scredits/scredits.py:96-112 | one iteration of the detailed loop on its state (current account, its allocation, rows so far); `Detailed.StepExpected` states what it adds |
| Detailed.Walk | scredits/scredits.py:84-112 | the detailed loop as a fold of `Step` from the empty state; `Detailed.WalkExpected` states its state after n records |
| Detailed.Contribution | scredits/scredits.py:96-112 | the rows record i adds, read from the record and its neighbour: a header at the first record of an account run, preceded by a separator when the previous record names an account, and a user row for a named user, measured against the run's first limit; `Detailed.ContributionLists` states when each appears |
| Detailed.Expected | scredits/scredits.py:84-112 | the report as the concatenation of the contributions of the first n records, defined independently of the loop; `Detailed.WalkExpected` proves the loop produces it |
| Detailed.RunStart | scredits/scredits.py:96-102 | the first record of the run of equal accounts that contains record i |
| Detailed.WalkExpected | scredits/scredits.py:84-112 | after n records, the loop's rows are the record-by-record report, its current account is the last record's, and its allocation is the limit of that account run's first record |
| Detailed.StepExpected | scredits/scredits.py:96-112 | one iteration adds exactly the next record's separator, header and user row |
| Detailed.WalkIsDetailRows | scredits/scredits.py:84-112 | the loop over a whole listing produces the record-by-record report |
| Detailed.HeadersAndUsers | scredits/scredits.py:96-112 | there is one header per run of records of one account, naming that account, and one user row per record with a non-empty user; both in input order |
| Detailed.ContributionLists | scredits/scredits.py:96-104 | a record adds a header exactly when it starts a run, and a user row exactly when its user is non-empty |
| Detailed.ReportShape | scredits/scredits.py:97-99 | the report opens with a header, and a separator appears only directly before the header of the next account |
| Detailed.TwoAccounts | scredits/scredits.py:96-112 | users are measured against their account row's limit rather than their own; an account without a limit gives 0%; a separator divides two named accounts |
| Detailed.ShowAccountUsers | scredits/scredits.py:77-112 | the loop over the parsed records produces the state-machine rows and the record-by-record report |

## Left out

- Running `sshare` as a subprocess. Its output is a parameter.
- The `--version` and `--verbose` printing, the fixed-width printing of both
  reports, and "Nessun dato disponibile.". These are output formatting.
- The pandas DataFrame and `set_index`. The reports are sequences of rows.
- `round(…, 2)` and the `:.2f` formatting. Percentages are exact reals, not
  floats.
- The unused `account_billing_raw` variable, which has no effect on the output.
- The Unicode meaning of `\d`, `\w` and `str.isspace()`. The model uses ASCII
  digits, `[A-Za-z0-9_]` and the ASCII whitespace for which Python's
  `isspace()` holds.
- Python's limit on the length of the digit strings `int()` accepts. Amounts
  are unbounded naturals.
- `scredits/cli.py`, which handles argument parsing and printing, and
  `setup.py`, which is packaging. Neither is part of this model.
- The JSON balance export, the account filter, the reset dates and the
  per-account totals. These features have no code in `scredits/scredits.py`.
- Summary.GetSlurmUsage: the loop body computes the row through `RowFor`, a
  function of the record that does the same search, subtraction and
  percentage as lines 44-51, instead of inlining those steps.
- The specification of the detailed report reads each record through
  `Digest`, which also computes `extract_resources` for records without a
  user, where the source skips it. This changes no row, because the function
  is pure and its value is used only for user rows. The method
  `ShowAccountUsers` calls it only for user records, as the source does.
