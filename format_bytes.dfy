/**
 * `formatBytes` (build/build.js:337-341): a byte count in `B`, `KB` with one decimal, or
 * `MB` with two. `bytes / 1024` and `bytes / (1024 * 1024)` divide by a power of two, so
 * for every byte count a double holds exactly the quotient is exact, and `toFixed(d)`
 * picks the nearest multiple of 10^-d, the larger on a tie: rounding half up, which is
 * written out below on naturals.
 */
module FormatBytes {
  import opened JsText

  const KiB: nat := 1024
  const MiB: nat := 1024 * 1024

  /** Tenths of a kibibyte, rounded half up: `(bytes / 1024).toFixed(1)` without the point. */
  function KibTenths(bytes: nat): nat
  {
    (10 * bytes + KiB / 2) / KiB
  }

  /** Hundredths of a mebibyte, rounded half up. */
  function MibHundredths(bytes: nat): nat
  {
    (100 * bytes + MiB / 2) / MiB
  }

  /** `n / 10` written with one decimal, as `toFixed(1)` writes it. */
  function OneDecimal(n: nat): string
  {
    NatToString(n / 10) + "." + [DigitChar(n % 10)]
  }

  /** `n / 100` written with two decimals, as `toFixed(2)` writes it. */
  function TwoDecimals(n: nat): string
  {
    NatToString(n / 100) + "." + [DigitChar(n % 100 / 10), DigitChar(n % 10)]
  }

  /** `formatBytes(bytes)`. The unit follows the two thresholds: bytes below 1024,
      kilobytes below 1024 * 1024, megabytes from there on. */
  function FormatBytes(bytes: nat): (r: string)
    ensures EndsWith(r, " B") <==> bytes < KiB
    ensures EndsWith(r, " KB") <==> KiB <= bytes < MiB
    ensures EndsWith(r, " MB") <==> MiB <= bytes
  {
    if bytes < KiB then
      var r := NatToString(bytes) + " B";
      var n := |r|;
      assert r[n - 2..] == " B";
      assert r[n - 1] == 'B' && r[n - 2] == ' ';
      r
    else if bytes < MiB then
      var r := OneDecimal(KibTenths(bytes)) + " KB";
      var n := |r|;
      assert r[n - 3..] == " KB";
      assert r[n - 2] == 'K';
      r
    else
      var r := TwoDecimals(MibHundredths(bytes)) + " MB";
      var n := |r|;
      assert r[n - 3..] == " MB";
      assert r[n - 2] == 'M';
      r
  }

  /** Below 1024 the count is written in full and reads back as itself. */
  lemma BytesReadBack(bytes: nat)
    requires bytes < KiB
    ensures FormatBytes(bytes) == NatToString(bytes) + " B"
    ensures DigitsValue(NatToString(bytes)) == bytes
  {
    DigitsValueOfNatToString(bytes);
  }

  /** The tenths are the quotient rounded half up. */
  lemma KibRounding(bytes: nat)
    ensures KibTenths(bytes) * KiB <= 10 * bytes + KiB / 2 < (KibTenths(bytes) + 1) * KiB
    ensures KiB <= bytes < MiB ==> 10 <= KibTenths(bytes) <= 10 * KiB
  {
  }

  /** The hundredths are the quotient rounded half up. */
  lemma MibRounding(bytes: nat)
    ensures MibHundredths(bytes) * MiB <= 100 * bytes + MiB / 2 < (MibHundredths(bytes) + 1) * MiB
    ensures MiB <= bytes ==> 100 <= MibHundredths(bytes)
  {
  }

  /** Appending a digit multiplies the value by ten and adds the digit. */
  lemma DigitsValueSnoc(w: string, d: nat)
    requires d < 10 && forall i :: 0 <= i < |w| ==> IsDigit(w[i])
    ensures forall i :: 0 <= i < |w + [DigitChar(d)]| ==> IsDigit((w + [DigitChar(d)])[i])
    ensures DigitsValue(w + [DigitChar(d)]) == DigitsValue(w) * 10 + d
  {
    var s := w + [DigitChar(d)];
    assert s[..|s| - 1] == w;
  }

  /** A one-decimal rendering reads back as the number of tenths once the point is
      dropped. */
  lemma OneDecimalReadsBack(n: nat)
    ensures var s := OneDecimal(n);
      |s| >= 3 && s[|s| - 2] == '.' && DigitsValue(s[..|s| - 2] + s[|s| - 1..]) == n
  {
    var s := OneDecimal(n);
    var w := NatToString(n / 10);
    assert s[..|s| - 2] + s[|s| - 1..] == w + [DigitChar(n % 10)];
    DigitsValueOfNatToString(n / 10);
    DigitsValueSnoc(w, n % 10);
  }

  /** A two-decimal rendering reads back as the number of hundredths once the point is
      dropped. */
  lemma TwoDecimalsReadBack(n: nat)
    ensures var s := TwoDecimals(n);
      |s| >= 4 && s[|s| - 3] == '.' && DigitsValue(s[..|s| - 3] + s[|s| - 2..]) == n
  {
    var s := TwoDecimals(n);
    var w := NatToString(n / 100);
    var w1 := w + [DigitChar(n % 100 / 10)];
    assert s[..|s| - 3] + s[|s| - 2..] == w1 + [DigitChar(n % 10)];
    DigitsValueOfNatToString(n / 100);
    DigitsValueSnoc(w, n % 100 / 10);
    DigitsValueSnoc(w1, n % 10);
    HundredsTensUnits(n);
  }

  lemma HundredsTensUnits(n: nat)
    ensures (n / 100 * 10 + n % 100 / 10) * 10 + n % 10 == n
  {
    var q, r := n / 100, n % 100;
    var t, u := r / 10, r % 10;
    assert n == 100 * q + r && r == 10 * t + u;
    assert n == 10 * (10 * q + t) + u && u < 10;
    assert n % 10 == u;
  }

  lemma FiveHundredBytes()
    ensures FormatBytes(500) == "500 B"
  {
  }

  lemma OneKilobyte()
    ensures FormatBytes(1024) == "1.0 KB"
  {
  }

  lemma OneMegabyte()
    ensures FormatBytes(1024 * 1024) == "1.00 MB"
  {
    assert MibHundredths(MiB) == 100;
    assert NatToString(1) == "1";
    assert TwoDecimals(100) == "1.00";
  }

  lemma TwoAndAHalfMegabytes()
    ensures FormatBytes(2621440) == "2.50 MB"
  {
    assert 2621440 >= MiB;
    assert MibHundredths(2621440) == 250;
    assert NatToString(2) == "2";
    assert DigitChar(5) == '5' && DigitChar(0) == '0';
    assert TwoDecimals(250) == "2.50";
  }

  /** One byte short of a mebibyte rounds up to "1024.0 KB": the unit is chosen before
      the rounding. */
  lemma LastKilobyte()
    ensures FormatBytes(MiB - 1) == "1024.0 KB"
  {
  }
}
