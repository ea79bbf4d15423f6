/**
 * The human-readable sequence ids the service gives books: `String.format("B-%03d", n)`,
 * that is "B-" followed by the decimal notation of `n` zero-padded to at least three digits.
 */
module UniqueIds {
  import opened Wrappers
  import opened Digits

  const Prefix: string := "B-"

  /** The minimum field width of the `%03d` conversion. */
  const MinWidth: nat := 3

  /** Left-pads a digit string with zeros to `width` characters, as the `0` flag of `%0Nd` does. */
  function ZeroPad(s: string, width: nat): string {
    if |s| >= width then s else Zeros(width - |s|) + s
  }

  /** Padding keeps the string as a suffix, puts only zeros before it, and reaches the width. */
  lemma ZeroPadShape(s: string, width: nat)
    ensures |ZeroPad(s, width)| == if |s| >= width then |s| else width
    ensures ZeroPad(s, width) == Zeros(|ZeroPad(s, width)| - |s|) + s
  {
    if |s| >= width {
      assert Zeros(0) + s == s;
    }
  }

  /** The sequence id for counter value `n`. */
  function FormatId(n: nat): string {
    Prefix + ZeroPad(Decimal(n), MinWidth)
  }

  /** The shape of every string `FormatId` produces: prefix, at least three digits, no surplus leading zero. */
  predicate IsCanonicalId(s: string) {
    && |s| >= |Prefix| + MinWidth
    && s[..|Prefix|] == Prefix
    && AllDigits(s[|Prefix|..])
    && (|s| == |Prefix| + MinWidth || s[|Prefix|] != '0')
  }

  /** Reads the counter value back out of an id, or `None` when the string is not prefix-then-digits. */
  function ParseId(s: string): Option<nat> {
    if |s| > |Prefix| && s[..|Prefix|] == Prefix && AllDigits(s[|Prefix|..])
    then Some(Value(s[|Prefix|..]))
    else None
  }

  /** Parsing undoes formatting. */
  lemma ParseFormatId(n: nat)
    ensures ParseId(FormatId(n)) == Some(n)
  {
    var d := Decimal(n);
    ValueOfDecimal(n);
    ZeroPadShape(d, MinWidth);
    var padded := ZeroPad(d, MinWidth);
    assert FormatId(n)[|Prefix|..] == padded;
    ValueLeadingZeros(|padded| - |d|, d);
  }

  /** Distinct counter values give distinct ids, so the generator never proposes one candidate twice. */
  lemma FormatIdInjective(m: nat, n: nat)
    ensures FormatId(m) == FormatId(n) <==> m == n
  {
    ParseFormatId(m);
    ParseFormatId(n);
  }

  /** Formatting yields the canonical shape, with exactly three digits precisely for counters below 1000. */
  lemma FormatIdShape(n: nat)
    ensures IsCanonicalId(FormatId(n))
    ensures |FormatId(n)| == |Prefix| + MinWidth <==> n < 1000
  {
    var d := Decimal(n);
    DecimalShape(n);
    DecimalLength(n, MinWidth);
    assert Pow10(MinWidth) == 1000;
    ZeroPadShape(d, MinWidth);
    var padded := ZeroPad(d, MinWidth);
    ValueLeadingZeros(|padded| - |d|, d);
    assert FormatId(n)[|Prefix|..] == padded;
    if |d| > MinWidth {
      assert FormatId(n)[|Prefix|] == d[0];
    }
  }

  /** Zero-padding a canonical notation to width `w` gives back any digit string of the matching shape. */
  lemma {:induction false} PadOfValue(s: string, w: nat)
    requires w >= 1 && |s| >= w && AllDigits(s)
    requires |s| == w || s[0] != '0'
    ensures ZeroPad(Decimal(Value(s)), w) == s
  {
    if s[0] != '0' || |s| == 1 {
      DecimalOfValue(s);
    } else {
      var t := s[1..];
      assert s == ['0'] + t;
      ValueLeadingZero(t);
      PadOfValue(t, w - 1);
      var x := Decimal(Value(t));
      assert |x| <= w - 1;
      assert Zeros(w - |x|) == ['0'] + Zeros(w - 1 - |x|);
    }
  }

  /** Formatting undoes parsing on every canonical id: the id format is a bijection with the naturals. */
  lemma FormatParseId(s: string)
    requires IsCanonicalId(s)
    ensures ParseId(s).Some? && FormatId(ParseId(s).value) == s
  {
    var digits := s[|Prefix|..];
    PadOfValue(digits, MinWidth);
    assert s == Prefix + digits;
  }

  /**
   * A finite set holds at most as many ids as there are counter values whose ids it
   * holds: the reason the generator's retry loop ends.
   */
  lemma {:induction false} CandidatesBound(taken: set<string>, lo: nat, hi: nat)
    requires forall n :: lo <= n < hi ==> FormatId(n) in taken
    ensures hi - lo <= |taken|
    decreases hi
  {
    if lo < hi {
      var last := FormatId(hi - 1);
      var rest := taken - {last};
      forall n | lo <= n < hi - 1
        ensures FormatId(n) in rest
      {
        FormatIdInjective(n, hi - 1);
      }
      CandidatesBound(rest, lo, hi - 1);
    }
  }

  /** The first ids a fresh process hands out. */
  lemma FirstIds()
    ensures FormatId(1) == "B-001" && FormatId(2) == "B-002" && FormatId(3) == "B-003"
  {
    assert Decimal(1) == "1" && Decimal(2) == "2" && Decimal(3) == "3";
    assert Zeros(2) == "00";
  }
}
