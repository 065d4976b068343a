/** Option, the usual stand-in for a Java reference that may be null. */
module Wrappers {
  datatype Option<+T> = None | Some(value: T)
}

/**
 * Spool file naming: the `batch-<ms>-<token>.ndjson.gz` pattern that the batch
 * writer produces and the suffix filter that the retention sweep applies.
 */
module SpoolNames {
  import opened Wrappers

  const BatchPrefix: string := "batch-"
  const BatchSuffix: string := ".ndjson.gz"

  predicate EndsWith(s: string, suffix: string) {
    |suffix| <= |s| && s[|s| - |suffix|..] == suffix
  }

  /** The listing filter of the sweep: `name.endsWith(".ndjson.gz")`. */
  predicate IsBatchName(name: string) {
    EndsWith(name, BatchSuffix)
  }

  predicate IsDigit(c: char) {
    '0' <= c <= '9'
  }

  predicate AllDigits(s: string) {
    forall i :: 0 <= i < |s| ==> IsDigit(s[i])
  }

  function DigitChar(d: nat): (c: char)
    requires d < 10
    ensures IsDigit(c)
  {
    (('0' as int) + d) as char
  }

  /** The decimal digits of a natural number, most significant first, no leading zeros. */
  function NatDigits(n: nat): (s: string)
    ensures |s| > 0 && AllDigits(s)
    decreases n
  {
    if n < 10 then [DigitChar(n)] else NatDigits(n / 10) + [DigitChar(n % 10)]
  }

  /** `Long.toString`, which string concatenation applies to the epoch milliseconds. */
  function DecimalString(n: int): string {
    if n < 0 then "-" + NatDigits(-n) else NatDigits(n)
  }

  /** Reads a run of decimal digits back (the inverse of NatDigits). */
  function DigitsValue(s: string): nat
    requires AllDigits(s)
  {
    if s == [] then 0 else DigitsValue(s[..|s| - 1]) * 10 + (s[|s| - 1] as int - '0' as int)
  }

  /** Reads an optionally negative decimal number; the partner of DecimalString. */
  function ParseDecimal(s: string): Option<int> {
    if |s| > 1 && s[0] == '-' && AllDigits(s[1..]) then Some(-(DigitsValue(s[1..]) as int))
    else if |s| > 0 && AllDigits(s) then Some(DigitsValue(s) as int)
    else None
  }

  /** The name writeBatch gives a new batch file. */
  function BatchName(ms: int, token: string): string {
    BatchPrefix + DecimalString(ms) + "-" + token + BatchSuffix
  }

  lemma {:induction false} NatDigitsRoundTrip(n: nat)
    ensures DigitsValue(NatDigits(n)) == n
    decreases n
  {
    if n >= 10 {
      var s := NatDigits(n);
      assert s[..|s| - 1] == NatDigits(n / 10);
      NatDigitsRoundTrip(n / 10);
    }
  }

  lemma {:induction false} DecimalRoundTrip(n: int)
    ensures ParseDecimal(DecimalString(n)) == Some(n)
  {
    if n < 0 {
      var s := DecimalString(n);
      assert s[1..] == NatDigits(-n);
      NatDigitsRoundTrip(-n);
    } else {
      NatDigitsRoundTrip(n);
    }
  }

  lemma DecimalStringInjective(m1: int, m2: int)
    ensures DecimalString(m1) == DecimalString(m2) <==> m1 == m2
  {
    if DecimalString(m1) == DecimalString(m2) {
      DecimalRoundTrip(m1);
      DecimalRoundTrip(m2);
    }
  }

  /** Every name writeBatch produces passes the sweep's suffix filter. */
  lemma BatchNameIsSwept(ms: int, token: string)
    ensures IsBatchName(BatchName(ms, token))
    ensures |BatchName(ms, token)| > |BatchPrefix| + |BatchSuffix|
    ensures BatchName(ms, token)[..|BatchPrefix|] == BatchPrefix
  {
    var name := BatchName(ms, token);
    var middle := DecimalString(ms) + "-" + token;
    assert name == BatchPrefix + middle + BatchSuffix;
    assert name[|name| - |BatchSuffix|..] == BatchSuffix;
  }

  /**
   * Two batch names with tokens of one length (a UUID's text is always 36
   * characters) coincide exactly when both the milliseconds and the tokens do:
   * two batches in the same millisecond collide only if their tokens do.
   */
  lemma BatchNameInjective(m1: int, t1: string, m2: int, t2: string)
    requires |t1| == |t2|
    ensures BatchName(m1, t1) == BatchName(m2, t2) <==> m1 == m2 && t1 == t2
  {
    if BatchName(m1, t1) == BatchName(m2, t2) {
      var d1, d2 := DecimalString(m1), DecimalString(m2);
      var a1, a2 := d1 + "-" + t1, d2 + "-" + t2;
      var n := BatchName(m1, t1);
      assert n == BatchPrefix + a1 + BatchSuffix;
      assert n == BatchPrefix + a2 + BatchSuffix;
      assert |a1| == |a2|;
      assert a1 == n[|BatchPrefix|..|BatchPrefix| + |a1|];
      assert a2 == n[|BatchPrefix|..|BatchPrefix| + |a2|];
      assert |d1| == |d2|;
      assert d1 == a1[..|d1|] && d2 == a2[..|d2|];
      assert t1 == a1[|d1| + 1..] && t2 == a2[|d2| + 1..];
      DecimalStringInjective(m1, m2);
    }
  }
}
