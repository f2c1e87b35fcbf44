/**
 * The display clean-up `text.replace(/\.?0+$/, '')` applied to balances,
 * transaction amounts and the amount echoed by `send`.
 *
 * `Strip` computes it from the maximal trailing run of '0'; `RegexReplace`
 * follows the regular-expression engine instead (try each start position from
 * the left, replace the first match), and `StripIsRegexReplace` proves the two
 * agree on every string.
 */
module ZeroStrip {
  import opened Wrappers

  /** Length of the maximal run of '0' characters at the end of `s`. */
  function TrailingZeros(s: string): (n: nat)
    ensures n <= |s|
    ensures forall i :: |s| - n <= i < |s| ==> s[i] == '0'
    ensures n < |s| ==> s[|s| - n - 1] != '0'
  {
    if |s| > 0 && s[|s| - 1] == '0' then TrailingZeros(s[..|s| - 1]) + 1 else 0
  }

  /**
   * Where the removed tail starts: before the trailing zeros, or one further
   * left when a '.' sits right before them; `|s|` when there are no zeros.
   */
  function CutPoint(s: string): (c: nat)
    ensures c <= |s|
  {
    var z := |s| - TrailingZeros(s);
    if z < |s| && 0 < z && s[z - 1] == '.' then z - 1 else z
  }

  /** `s.replace(/\.?0+$/, '')`, cut at `CutPoint`. */
  function Strip(s: string): (r: string)
    ensures r <= s
    ensures r == s <==> TrailingZeros(s) == 0
  {
    s[..CutPoint(s)]
  }

  /** Every character of `t` is '0'. */
  predicate AllZeros(t: string)
  {
    forall i :: 0 <= i < |t| ==> t[i] == '0'
  }

  /** The pattern `\.?0+` followed by `$` matches `s` from position `p` on. */
  predicate MatchesFrom(s: string, p: nat)
    requires p <= |s|
  {
    (p < |s| && AllZeros(s[p..]))
    || (p + 1 < |s| && s[p] == '.' && AllZeros(s[p + 1..]))
  }

  /** The engine's scan: the leftmost start position `>= p` at which the pattern matches. */
  function FirstMatchFrom(s: string, p: nat): (m: Option<nat>)
    requires p <= |s|
    ensures m.Some? ==> p <= m.value <= |s| && MatchesFrom(s, m.value)
    decreases |s| - p
  {
    if MatchesFrom(s, p) then Some(p)
    else if p == |s| then None
    else FirstMatchFrom(s, p + 1)
  }

  /** `s.replace(re, '')` for a non-global `re` anchored at the end. */
  function RegexReplace(s: string): (r: string)
    ensures r <= s
  {
    match FirstMatchFrom(s, 0)
    case None => s
    case Some(m) => s[..m]
  }

  lemma {:induction false} FirstMatchIs(s: string, p: nat, m: nat)
    requires p <= m <= |s|
    requires MatchesFrom(s, m)
    requires forall q :: p <= q < m ==> !MatchesFrom(s, q)
    ensures FirstMatchFrom(s, p) == Some(m)
    decreases m - p
  {
    if p < m {
      FirstMatchIs(s, p + 1, m);
    }
  }

  lemma {:induction false} NoMatchFrom(s: string, p: nat)
    requires p <= |s|
    requires forall q :: p <= q <= |s| ==> !MatchesFrom(s, q)
    ensures FirstMatchFrom(s, p) == None
    decreases |s| - p
  {
    if p < |s| {
      NoMatchFrom(s, p + 1);
    }
  }

  /** Strip is exactly what the JavaScript replacement computes. */
  lemma StripIsRegexReplace(s: string)
    ensures Strip(s) == RegexReplace(s)
  {
    var z := |s| - TrailingZeros(s);
    var c := CutPoint(s);
    // a match from q needs every character after q (after the '.', if any) to be '0'
    forall q | 0 <= q < c
      ensures !MatchesFrom(s, q)
    {
      assert s[q..][z - 1 - q] == s[z - 1] != '0';
      if q + 1 < z {
        assert s[q + 1..][z - 2 - q] == s[z - 1];
      }
    }
    if z == |s| {
      assert c == |s|;
      assert !MatchesFrom(s, |s|);
      NoMatchFrom(s, 0);
    } else {
      if c == z {
        assert AllZeros(s[z..]);
      } else {
        assert AllZeros(s[z..]);
        assert s[c + 1..] == s[z..];
      }
      assert MatchesFrom(s, c);
      FirstMatchIs(s, 0, c);
    }
  }

  /** The result is the input with no trailing zeros, or with its trailing zeros and one preceding '.' removed. */
  lemma StripShape(s: string)
    ensures Strip(s) <= s
    ensures TrailingZeros(s) == 0 ==> Strip(s) == s
    ensures TrailingZeros(s) > 0 ==>
      s == Strip(s) + s[|Strip(s)|..]
      && (s[|Strip(s)|..] == s[|s| - TrailingZeros(s)..]
          || s[|Strip(s)|..] == ['.'] + s[|s| - TrailingZeros(s)..])
    ensures AllZeros(s[|s| - TrailingZeros(s)..])
  {
    var z := |s| - TrailingZeros(s);
    if z < |s| && 0 < z && s[z - 1] == '.' {
      assert s[z - 1..] == ['.'] + s[z..];
    }
  }

  /**
   * The result ends in '0' exactly when a '.' was removed and the digit before
   * it is '0' (as in "0.0" becoming "0"); otherwise it has no trailing zero.
   */
  lemma StripEndsInZero(s: string)
    ensures var r := Strip(s);
      (|r| > 0 && r[|r| - 1] == '0')
      <==> (TrailingZeros(s) > 0 && s[|r|] == '.' && |r| > 0 && r[|r| - 1] == s[|r| - 1] == '0')
  {
    var r := Strip(s);
    var z := |s| - TrailingZeros(s);
    assert 0 < z ==> s[z - 1] != '0';
    if |r| > 0 {
      assert r[|r| - 1] == s[|r| - 1];
    }
  }

  /** Stripping again changes nothing exactly when the first result does not end in '0'. */
  lemma StripIdempotentWhen(s: string)
    ensures var r := Strip(s);
      Strip(r) == r <==> !(|r| > 0 && r[|r| - 1] == '0')
  {
    var r := Strip(s);
    if |r| > 0 && r[|r| - 1] == '0' {
      assert TrailingZeros(r) > 0;
      assert |Strip(r)| < |r|;
    } else {
      assert TrailingZeros(r) == 0;
    }
  }

  /** The strip is not idempotent: "0.0" becomes "0", which becomes "". */
  lemma StripNotIdempotent()
    ensures Strip("0.0") == "0"
    ensures Strip(Strip("0.0")) == ""
  {
    assert TrailingZeros("0.0"[..2]) == 0;
    assert TrailingZeros("0.0") == 1;
    assert TrailingZeros("0") == 1;
  }

  /** A '.' bounds the strip: everything before the last '.' survives. */
  lemma {:induction false} StripKeepsIntegerPart(whole: string, fraction: string)
    ensures whole <= Strip(whole + "." + fraction)
  {
    var s := whole + "." + fraction;
    assert s[|whole|] == '.';
    assert TrailingZeros(s) <= |fraction|;
  }

  /** Without a '.', every trailing zero goes, integer digits included. */
  lemma StripInteger(s: string)
    requires '.' !in s
    ensures Strip(s) == s[..|s| - TrailingZeros(s)]
  {
    var z := |s| - TrailingZeros(s);
    if z < |s| && 0 < z {
      assert s[z - 1] in s;
    }
  }

  /** The trailing run is pinned down by where the last non-'0' character is. */
  lemma TrailingZerosOfSplit(head: string, zeros: string)
    requires AllZeros(zeros)
    requires |head| == 0 || head[|head| - 1] != '0'
    ensures TrailingZeros(head + zeros) == |zeros|
  {
    var s := head + zeros;
    assert forall i :: |head| <= i < |s| ==> s[i] == zeros[i - |head|];
    assert |head| > 0 ==> s[|head| - 1] == head[|head| - 1];
  }

  /** Strings the bot meets: a whole balance, a fractional one, and the integer amount of `send`. */
  lemma StripExamples()
    ensures Strip("150.000") == "150"
    ensures Strip("150.000000000000") == "150"
    ensures Strip("100") == "1"
    ensures Strip("0.500") == "0.5"
  {
    TrailingZerosOfSplit("150.", "000");
    assert "150." + "000" == "150.000";
    TrailingZerosOfSplit("150.", "000000000000");
    assert "150." + "000000000000" == "150.000000000000";
    TrailingZerosOfSplit("1", "00");
    assert "1" + "00" == "100";
    TrailingZerosOfSplit("0.5", "00");
    assert "0.5" + "00" == "0.500";
  }
}
