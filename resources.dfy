/**
 * `extract_resources`: `re.findall(r'(\w+)=(\d+)', raw)` over a usage
 * descriptor, keeping only the pairs whose key is cpu, mem or gpu and
 * joining them as "key=value" with ", ".
 */
module Resources {
  import opened Wrappers
  import opened Text

  /** A match of `(\w+)=(\d+)`: key `s[start..eq]`, `=` at `eq`, value `s[eq + 1..end]`. */
  datatype Match = Match(start: nat, eq: nat, end: nat)

  /**
   * `m` is what the pattern matches when tried at `m.start`: the word run up
   * to an `=` (backtracking `\w+` can only stop at the `=`), then the
   * greedy, hence maximal, run of digits.
   */
  predicate ValidMatch(s: string, m: Match) {
    && m.start < m.eq && m.eq + 1 < m.end <= |s|
    && (forall k :: m.start <= k < m.eq ==> IsWordChar(s[k]))
    && s[m.eq] == '='
    && (forall k :: m.eq < k < m.end ==> IsDigit(s[k]))
    && (m.end == |s| || !IsDigit(s[m.end]))
  }

  /** The positions of a match are in order and inside the string. */
  predicate InBounds(s: string, m: Match) {
    m.start < m.eq && m.eq + 1 < m.end <= |s|
  }

  /** Trying the pattern at `p`: the match there, or None when none starts at `p`. */
  function MatchAt(s: string, p: nat): (r: Option<Match>)
    requires p <= |s|
    ensures r.Some? ==> r.value.start == p && InBounds(s, r.value)
  {
    if p < |s| && IsWordChar(s[p]) then
      var q := WordRunEnd(s, p);
      if q + 1 < |s| && s[q] == '=' && IsDigit(s[q + 1]) then
        Some(Match(p, q, DigitRunEnd(s, q + 1)))
      else
        None
    else
      None
  }

  /** `m` is the match the pattern makes when tried at its start. */
  predicate Found(s: string, m: Match) {
    m.start <= |s| && MatchAt(s, m.start) == Some(m)
  }

  /**
   * Trying the pattern agrees with its declarative meaning, both ways: what
   * MatchAt returns is a match, and any match is what MatchAt returns at its
   * start (so there is at most one per position).
   */
  lemma MatchAtCorrect(s: string, m: Match)
    ensures Found(s, m) <==> ValidMatch(s, m)
  {
  }

  /**
   * `re.findall` from `from` on: scan left to right, take the match at the
   * current position if there is one and resume after it, else move on by one.
   * The matches come in order and do not overlap.
   */
  function FindAll(s: string, from: nat): (ms: seq<Match>)
    requires from <= |s|
    ensures forall i :: 0 <= i < |ms| ==> InBounds(s, ms[i]) && from <= ms[i].start
    ensures forall i :: 0 <= i < |ms| - 1 ==> ms[i].end <= ms[i + 1].start
    decreases |s| - from
  {
    if from == |s| then []
    else
      match MatchAt(s, from)
      case Some(m) => [m] + FindAll(s, m.end)
      case None => FindAll(s, from + 1)
  }

  /** Every match the scan reports is a genuine match of the pattern. */
  lemma {:induction false} FindAllSound(s: string, from: nat)
    requires from <= |s|
    ensures forall i :: 0 <= i < |FindAll(s, from)| ==> Found(s, FindAll(s, from)[i])
    ensures forall i :: 0 <= i < |FindAll(s, from)| ==> ValidMatch(s, FindAll(s, from)[i])
    decreases |s| - from
  {
    var ms := FindAll(s, from);
    if from < |s| {
      match MatchAt(s, from)
      case Some(m) =>
        FindAllSound(s, m.end);
        assert ms == [m] + FindAll(s, m.end);
        forall i | 0 <= i < |ms| ensures Found(s, ms[i]) && ValidMatch(s, ms[i]) {
          if i > 0 {
            assert ms[i] == FindAll(s, m.end)[i - 1];
          }
          MatchAtCorrect(s, ms[i]);
        }
      case None =>
        assert ms == FindAll(s, from + 1);
        FindAllSound(s, from + 1);
    }
  }

  predicate Covers(m: Match, p: nat) {
    m.start <= p < m.end
  }

  /**
   * No match is missed: every position where the pattern matches is the
   * start of a found match or lies inside one found to its left.
   */
  lemma {:induction false} FindAllCovers(s: string, from: nat, m: Match)
    requires from <= m.start && ValidMatch(s, m)
    ensures exists i :: 0 <= i < |FindAll(s, from)| && Covers(FindAll(s, from)[i], m.start)
    decreases |s| - from
  {
    var ms := FindAll(s, from);
    var p := m.start;
    MatchAtCorrect(s, m);
    match MatchAt(s, from)
    case Some(n) =>
      assert ms == [n] + FindAll(s, n.end);
      if p < n.end {
        assert Covers(ms[0], p);
      } else {
        FindAllCovers(s, n.end, m);
        var rest := FindAll(s, n.end);
        var i :| 0 <= i < |rest| && Covers(rest[i], p);
        assert ms[i + 1] == rest[i];
      }
    case None =>
      assert ms == FindAll(s, from + 1);
      FindAllCovers(s, from + 1, m);
  }

  /**
   * When the scan skips ahead before its first match, the skipped character
   * just before that match is not a word character: otherwise the pattern
   * would already have matched one position earlier.
   */
  lemma {:induction false} FirstKeyWholeWord(s: string, from: nat)
    requires from <= |s|
    ensures var ms := FindAll(s, from);
            |ms| > 0 && ms[0].start > from ==> !IsWordChar(s[ms[0].start - 1])
    decreases |s| - from
  {
    var ms := FindAll(s, from);
    if from < |s| && MatchAt(s, from).None? {
      assert ms == FindAll(s, from + 1);
      FirstKeyWholeWord(s, from + 1);
      if |ms| > 0 && ms[0].start == from + 1 {
        FindAllSound(s, from);
        MatchAtCorrect(s, ms[0]);
      }
    }
  }

  /** The i-th found key starts a word, or directly follows the previous match. */
  predicate StartsWord(s: string, ms: seq<Match>, i: nat) {
    0 < i < |ms| && 0 < ms[i].start <= |s| && IsWordChar(s[ms[i].start - 1])
    ==> ms[i].start == ms[i - 1].end
  }

  /**
   * A found key is never the tail of a longer word: the character before it
   * is not a word character, unless the key follows directly on the value of
   * the previous match.
   */
  lemma {:induction false} KeysAreWholeWords(s: string, from: nat)
    requires from <= |s|
    ensures forall i :: StartsWord(s, FindAll(s, from), i)
    decreases |s| - from
  {
    var ms := FindAll(s, from);
    if from < |s| {
      match MatchAt(s, from)
      case Some(m) =>
        var rest := FindAll(s, m.end);
        KeysAreWholeWords(s, m.end);
        FirstKeyWholeWord(s, m.end);
        ConsWholeWords(s, m, rest);
        assert ms == [m] + rest;
      case None =>
        assert ms == FindAll(s, from + 1);
        KeysAreWholeWords(s, from + 1);
    }
  }

  /** Putting a match in front of a list with the whole-word property keeps it. */
  lemma ConsWholeWords(s: string, m: Match, rest: seq<Match>)
    requires forall i :: StartsWord(s, rest, i)
    requires |rest| > 0 ==> m.end <= rest[0].start <= |s|
    requires |rest| > 0 && rest[0].start > m.end ==> !IsWordChar(s[rest[0].start - 1])
    ensures forall i :: StartsWord(s, [m] + rest, i)
  {
    var ms := [m] + rest;
    forall i: nat ensures StartsWord(s, ms, i) {
      if 1 < i < |ms| {
        assert StartsWord(s, rest, i - 1);
        assert ms[i] == rest[i - 1] && ms[i - 1] == rest[i - 2];
      }
    }
  }

  /** The whole-word property for a scan of the whole descriptor. */
  lemma KeyNotInsideWord(s: string, i: nat)
    requires i < |FindAll(s, 0)|
    ensures var m := FindAll(s, 0)[i];
            m.start == 0 || !IsWordChar(s[m.start - 1]) || (i > 0 && m.start == FindAll(s, 0)[i - 1].end)
  {
    KeysAreWholeWords(s, 0);
    FirstKeyWholeWord(s, 0);
    assert StartsWord(s, FindAll(s, 0), i);
  }

  // ---------------------------------------------------------------------
  // Keeping cpu, mem and gpu

  const KeptKeys: set<string> := {"cpu", "mem", "gpu"}

  function Key(s: string, m: Match): string
    requires InBounds(s, m)
  {
    s[m.start..m.eq]
  }

  function Value(s: string, m: Match): string
    requires InBounds(s, m)
  {
    s[m.eq + 1..m.end]
  }

  predicate AllInBounds(s: string, ms: seq<Match>) {
    forall i :: 0 <= i < |ms| ==> InBounds(s, ms[i])
  }

  predicate Ordered(ms: seq<Match>) {
    forall i :: 0 <= i < |ms| - 1 ==> ms[i].end <= ms[i + 1].start
  }

  /** The comprehension's filter: the matches whose key is cpu, mem or gpu. */
  function Kept(s: string, ms: seq<Match>): (r: seq<Match>)
    requires AllInBounds(s, ms)
    ensures |r| <= |ms| && AllInBounds(s, r)
    ensures forall i :: 0 <= i < |r| ==> Key(s, r[i]) in KeptKeys
  {
    if ms == [] then []
    else (if Key(s, ms[0]) in KeptKeys then [ms[0]] else []) + Kept(s, ms[1..])
  }

  /** Filtering keeps order: the kept matches of a concatenation are those of each part, in turn. */
  lemma {:induction false} KeptAppend(s: string, a: seq<Match>, b: seq<Match>)
    requires AllInBounds(s, a) && AllInBounds(s, b)
    ensures AllInBounds(s, a + b)
    ensures Kept(s, a + b) == Kept(s, a) + Kept(s, b)
  {
    if a != [] {
      assert (a + b)[1..] == a[1..] + b;
      KeptAppend(s, a[1..], b);
    } else {
      assert a + b == b;
    }
  }

  /** Filtering drops nothing it should keep, and keeps nothing that is not there. */
  lemma {:induction false} KeptExactly(s: string, ms: seq<Match>)
    requires AllInBounds(s, ms)
    ensures forall i :: 0 <= i < |ms| && Key(s, ms[i]) in KeptKeys ==> ms[i] in Kept(s, ms)
    ensures forall m :: m in Kept(s, ms) ==> m in ms
  {
    if ms != [] {
      KeptExactly(s, ms[1..]);
      forall i | 0 < i < |ms| ensures ms[i] == ms[1..][i - 1] { }
    }
  }

  /** One kept pair written back as "key=value". */
  function Pair(s: string, m: Match): string
    requires InBounds(s, m)
  {
    Key(s, m) + "=" + Value(s, m)
  }

  /** A kept pair is written back exactly as it appears in the descriptor. */
  lemma PairIsMatchedText(s: string, m: Match)
    requires Found(s, m)
    ensures Pair(s, m) == s[m.start..m.end]
  {
    assert s[m.start..m.end] == s[m.start..m.eq] + [s[m.eq]] + s[m.eq + 1..m.end];
  }

  /** The matches of the whole descriptor that the comprehension keeps. */
  function KeptMatches(raw: string): seq<Match> {
    Kept(raw, FindAll(raw, 0))
  }

  /** `extract_resources(raw)`. */
  function ExtractResources(raw: string): string
  {
    var kept := KeptMatches(raw);
    Join(seq(|kept|, i requires 0 <= i < |kept| => Pair(raw, kept[i])), ", ")
  }

  /** The kept matches of a scan come in input order, without overlap. */
  lemma {:induction false} KeptInOrder(s: string, from: nat)
    requires from <= |s|
    ensures Ordered(Kept(s, FindAll(s, from)))
    decreases |s| - from
  {
    if from < |s| {
      match MatchAt(s, from)
      case Some(m) =>
        var rest := FindAll(s, m.end);
        KeptInOrder(s, m.end);
        assert FindAll(s, from) == [m] + rest;
        assert ([m] + rest)[1..] == rest;
        KeptExactly(s, rest);
        var kr := Kept(s, rest);
        forall i | 0 <= i < |kr|
          ensures m.end <= kr[i].start
        {
          assert kr[i] in rest;
        }
      case None =>
        assert FindAll(s, from) == FindAll(s, from + 1);
        KeptInOrder(s, from + 1);
    }
  }

  /**
   * The resource string lists, separated by ", ", the text of each match
   * whose key is cpu, mem or gpu, exactly as it stands in the descriptor and
   * in the order it stands there.
   */
  lemma ExtractResourcesText(raw: string)
    ensures Ordered(KeptMatches(raw))
    ensures forall i :: 0 <= i < |KeptMatches(raw)| ==> ValidMatch(raw, KeptMatches(raw)[i])
    ensures forall i :: 0 <= i < |KeptMatches(raw)| ==> Key(raw, KeptMatches(raw)[i]) in KeptKeys
    ensures var kept := KeptMatches(raw);
            ExtractResources(raw)
            == Join(seq(|kept|, i requires 0 <= i < |kept| => raw[kept[i].start..kept[i].end]), ", ")
  {
    var kept := KeptMatches(raw);
    KeptInOrder(raw, 0);
    KeptSound(raw);
    var pairs := seq(|kept|, i requires 0 <= i < |kept| => Pair(raw, kept[i]));
    var texts := seq(|kept|, i requires 0 <= i < |kept| => raw[kept[i].start..kept[i].end]);
    forall i | 0 <= i < |kept|
      ensures ValidMatch(raw, kept[i]) && pairs[i] == texts[i]
    {
      PairIsMatchedText(raw, kept[i]);
      MatchAtCorrect(raw, kept[i]);
    }
    assert pairs == texts;
  }

  /** Every kept match is a match the scan found. */
  lemma KeptSound(raw: string)
    ensures forall i :: 0 <= i < |KeptMatches(raw)| ==> Found(raw, KeptMatches(raw)[i])
  {
    var ms := FindAll(raw, 0);
    var kept := KeptMatches(raw);
    FindAllSound(raw, 0);
    KeptExactly(raw, ms);
    forall i | 0 <= i < |kept|
      ensures Found(raw, kept[i])
    {
      assert kept[i] in ms;
      var j :| 0 <= j < |ms| && ms[j] == kept[i];
      assert Found(raw, ms[j]);
    }
  }

  /** Joining pieces gives nothing only when there are no pieces or one empty one. */
  lemma {:induction false} JoinEmpty(parts: seq<string>, sep: string)
    requires sep != []
    ensures Join(parts, sep) == [] <==> |parts| == 0 || (|parts| == 1 && parts[0] == [])
  {
    if |parts| > 1 {
      assert |Join(parts, sep)| >= |sep|;
    }
  }

  /** No key among the matches is cpu, mem or gpu. */
  predicate NoneKept(s: string, ms: seq<Match>)
    requires AllInBounds(s, ms)
  {
    forall i :: 0 <= i < |ms| ==> Key(s, ms[i]) !in KeptKeys
  }

  /** Nothing is kept exactly when no key is cpu, mem or gpu. */
  lemma KeptEmpty(s: string, ms: seq<Match>)
    requires AllInBounds(s, ms)
    ensures Kept(s, ms) == [] <==> NoneKept(s, ms)
  {
    KeptExactly(s, ms);
    var kept := Kept(s, ms);
    if |kept| > 0 {
      assert kept[0] in ms;
      var i :| 0 <= i < |ms| && ms[i] == kept[0];
      assert Key(s, ms[i]) in KeptKeys;
    }
  }

  /** The resource string is empty exactly when no cpu, mem or gpu pair is found. */
  lemma ExtractResourcesEmpty(raw: string)
    ensures ExtractResources(raw) == [] <==> NoneKept(raw, FindAll(raw, 0))
  {
    var ms := FindAll(raw, 0);
    var kept := Kept(raw, ms);
    var pairs := seq(|kept|, i requires 0 <= i < |kept| => Pair(raw, kept[i]));
    assert ExtractResources(raw) == Join(pairs, ", ");
    JoinEmpty(pairs, ", ");
    KeptEmpty(raw, ms);
    if |kept| > 0 {
      assert |pairs[0]| > 0;
      assert ExtractResources(raw) != [];
    }
  }

  /** A key that ends a longer word, as in `subcpu=3`, is not kept. */
  lemma LongerKeyDropped(s: string)
    requires s == "subcpu=3"
    ensures ExtractResources(s) == ""
  {
    var m := Match(0, 6, 8);
    assert ValidMatch(s, m);
    MatchAtCorrect(s, m);
    assert MatchAt(s, 0) == Some(m);
    assert FindAll(s, 8) == [];
    assert FindAll(s, 0) == [m];
    assert Key(s, m) == "subcpu";
  }
}
