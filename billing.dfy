/**
 * The search `re.search(r'billing=(\d+)', descriptor)` that both reports
 * apply to a TRES descriptor, and `int()` of the captured digits.
 */
module Billing {
  import opened Wrappers
  import opened Text

  const Key: string := "billing="

  /**
   * A match of the pattern starts at `i`: the eight characters `billing=`
   * followed by at least one digit. Nothing is required before `i`, so the
   * key may end a longer word such as `subbilling=`.
   */
  predicate TokenAt(s: string, i: nat) {
    i + |Key| < |s| && s[i..i + |Key|] == Key && IsDigit(s[i + |Key|])
  }

  /** The captured group at a match: the longest digit run after the key, read as a number. */
  function TokenValue(s: string, i: nat): nat
    requires TokenAt(s, i)
  {
    var start := i + |Key|;
    DecimalValue(s[start..DigitRunEnd(s, start)])
  }

  /** The leftmost match at or after `from`, as `re.search` scans for it. */
  function FirstToken(s: string, from: nat): (r: Option<nat>)
    requires from <= |s|
    ensures r.Some? ==> from <= r.value < |s| && TokenAt(s, r.value)
    ensures r.Some? ==> forall j :: from <= j < r.value ==> !TokenAt(s, j)
    ensures r.None? ==> forall j :: from <= j < |s| ==> !TokenAt(s, j)
    decreases |s| - from
  {
    if from == |s| then None
    else if TokenAt(s, from) then Some(from)
    else FirstToken(s, from + 1)
  }

  /**
   * The billing amount in a descriptor: the digits after the leftmost
   * `billing=` that is followed by a digit, or None when there is no such
   * occurrence.
   */
  function BillingToken(s: string): (r: Option<nat>)
    ensures r.Some? <==> exists i :: 0 <= i < |s| && TokenAt(s, i)
    ensures r.Some? ==> exists i :: 0 <= i < |s| && TokenAt(s, i) && r.value == TokenValue(s, i)
                                    && forall j :: 0 <= j < i ==> !TokenAt(s, j)
  {
    match FirstToken(s, 0)
    case Some(i) => Some(TokenValue(s, i))
    case None => None
  }

  /** The detailed report's reading of a descriptor: a missing token counts as 0. */
  function BillingOrZero(s: string): (n: nat)
    ensures BillingToken(s).None? ==> n == 0
    ensures BillingToken(s).Some? ==> n == BillingToken(s).value
  {
    BillingToken(s).GetOr(0)
  }

  /**
   * Whatever precedes a `billing=<n>` token, as long as it holds no match
   * itself and ends at a token boundary, and whatever follows it, as long as
   * it does not extend the digits, the search returns exactly `n`.
   */
  lemma TokenRoundTrip(prefix: string, n: nat, suffix: string)
    requires BillingToken(prefix).None?
    requires prefix == [] || prefix[|prefix| - 1] == ','
    requires suffix == [] || !IsDigit(suffix[0])
    ensures BillingToken(prefix + Key + NatToDecimal(n) + suffix) == Some(n)
  {
    var ds := NatToDecimal(n);
    var s := prefix + Key + ds + suffix;
    var p := |prefix|;
    forall j | 0 <= j < p
      ensures !TokenAt(s, j)
    {
      if j + |Key| < p {
        assert s[j..j + |Key| + 1] == prefix[j..j + |Key| + 1];
        assert !TokenAt(prefix, j);
      }
    }
    assert s[p..p + |Key|] == Key;
    assert s[p + |Key|] == ds[0];
    assert TokenAt(s, p);
    var first := FirstToken(s, 0);
    assert first == Some(p);
    var start := p + |Key|;
    var end := start + |ds|;
    assert s[start..end] == ds;
    assert DigitRunEnd(s, start) == end by {
      DigitRunEndOver(s, start, end);
    }
    DecimalRoundTrip(n);
  }

  /** Over a known digit run followed by a non-digit, the run ends where expected. */
  lemma {:induction false} DigitRunEndOver(s: string, p: nat, q: nat)
    requires p <= q <= |s|
    requires forall k :: p <= k < q ==> IsDigit(s[k])
    requires q == |s| || !IsDigit(s[q])
    ensures DigitRunEnd(s, p) == q
    decreases q - p
  {
    if p < q {
      DigitRunEndOver(s, p + 1, q);
    }
  }

  /** A descriptor with other keys around the billing token yields that token's amount. */
  lemma BillingAmongOtherKeys(s: string)
    requires s == "cpu=4,billing=120,mem=8"
    ensures BillingToken(s) == Some(120)
  {
    assert NatToDecimal(120) == "120" by {
      assert DigitChar(0) == '0' && DigitChar(1) == '1' && DigitChar(2) == '2';
      assert NatToDecimal(1) == "1";
      assert NatToDecimal(12) == NatToDecimal(1) + [DigitChar(2)] == "12";
    }
    var prefix, suffix := s[..6], s[17..];
    assert s == prefix + s[6..14] + s[14..17] + suffix;
    assert s[6..14] == Key && s[14..17] == "120";
    assert BillingToken(prefix).None?;
    TokenRoundTrip(prefix, 120, suffix);
  }

  /** The search is not anchored: `billing=` at the end of a longer key still matches. */
  lemma LongerKeyMatches()
    ensures BillingToken("subbilling=5") == Some(5)
  {
    var s := "subbilling=5";
    assert s[3..11] == Key;
    assert TokenAt(s, 3);
    assert !TokenAt(s, 0) && !TokenAt(s, 1) && !TokenAt(s, 2);
    assert FirstToken(s, 0) == Some(3);
    DigitRunEndOver(s, 11, 12);
    assert s[11..12] == "5";
    assert DecimalValue("5") == 5 by {
      assert "5"[..0] == [];
    }
  }

  /** A descriptor without a digit after any `billing=` has no amount; the detailed report reads 0. */
  lemma NoTokenReadsZero()
    ensures BillingToken("cpu=4,billing=,mem=8").None?
    ensures BillingOrZero("cpu=4,billing=,mem=8") == 0
  {
    var s := "cpu=4,billing=,mem=8";
    forall i | 0 <= i < |s|
      ensures !TokenAt(s, i)
    {
      if i + |Key| < |s| && s[i] == 'b' {
        assert i == 6 && s[14] == ',';
      } else if i + |Key| < |s| {
        assert s[i..i + |Key|][0] != Key[0];
      }
    }
  }
}
