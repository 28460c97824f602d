/**
 * Worked values of fmt: whole numbers lose the point, fractions lose their
 * trailing zeros, and the integer digits are kept whole.
 */
module FormatExamples {
  import opened Decimal
  import opened Format

  /** fmt of k / 10000 from the padded digits toFixed(4) starts from. */
  lemma FmtFromPadded(k: int, ip: string, fp: string)
    requires PaddedDigits(Abs(k)) == ip + fp && |fp| == 4
    ensures Fmt(k) == Sign(k) + TrimDigits(ip, fp)
  {
    FmtCases(k);
    assert (ip + fp)[..|ip|] == ip;
  }

  /** n zeros end in n zeros. */
  lemma {:induction false} ZerosTrail(n: nat)
    ensures TrailingZeros(Zeros(n)) == n
  {
    if n > 0 {
      assert Zeros(n)[..n - 1] == Zeros(n - 1);
      ZerosTrail(n - 1);
    }
  }

  /** Zeros appended after a nonzero digit are exactly the trailing zeros. */
  lemma {:induction false} DigitThenZeros(t: string, n: nat)
    requires |t| >= 1 && t[|t| - 1] != '0'
    ensures TrailingZeros(t + Zeros(n)) == n
  {
    if n > 0 {
      assert (t + Zeros(n))[..|t| + n - 1] == t + Zeros(n - 1);
      DigitThenZeros(t, n - 1);
    } else {
      assert t + Zeros(0) == t;
    }
  }

  lemma TrimWhole(ip: string)
    ensures TrimDigits(ip, Zeros(4)) == ip
  {
    ZerosTrail(4);
  }

  lemma TrimFraction(ip: string, t: string)
    requires 1 <= |t| <= 4 && t[|t| - 1] != '0'
    ensures TrimDigits(ip, t + Zeros(4 - |t|)) == ip + "." + t
  {
    DigitThenZeros(t, 4 - |t|);
    assert (t + Zeros(4 - |t|))[..|t|] == t;
  }

  /** A value with no fraction: fmt writes the sign and the integer digits only. */
  lemma FmtWhole(k: int, ip: string)
    requires PaddedDigits(Abs(k)) == ip + Zeros(4)
    ensures Fmt(k) == Sign(k) + ip
  {
    FmtFromPadded(k, ip, Zeros(4));
    TrimWhole(ip);
  }

  /** A value whose fraction digits are t and then zeros: fmt writes the point and t. */
  lemma FmtFraction(k: int, ip: string, t: string)
    requires 1 <= |t| <= 4 && t[|t| - 1] != '0'
    requires PaddedDigits(Abs(k)) == ip + (t + Zeros(4 - |t|))
    ensures Fmt(k) == Sign(k) + ip + "." + t
  {
    FmtFromPadded(k, ip, t + Zeros(4 - |t|));
    TrimFraction(ip, t);
    SignFirst(Sign(k), ip, t);
  }

  /** fmt(x) for an x that rounds to k / 10000, a whole number. */
  lemma FmtRealWhole(x: real, k: int, ip: string, r: string)
    requires RoundHalfUp(x * 10000.0) == k && PaddedDigits(Abs(k)) == ip + Zeros(4)
    requires r == Sign(k) + ip
    ensures FmtReal(x) == r
  {
    FmtWhole(k, ip);
  }

  /** fmt(x) for an x that rounds to k / 10000, with fraction digits t. */
  lemma FmtRealFraction(x: real, k: int, ip: string, t: string, r: string)
    requires 1 <= |t| <= 4 && t[|t| - 1] != '0'
    requires RoundHalfUp(x * 10000.0) == k && PaddedDigits(Abs(k)) == ip + (t + Zeros(4 - |t|))
    requires r == Sign(k) + ip + "." + t
    ensures FmtReal(x) == r
  {
    FmtFraction(k, ip, t);
  }

  lemma Padded30000()
    ensures PaddedDigits(30000) == "3" + Zeros(4)
  {
    assert DecimalDigits(3) == "3";
    assert DecimalDigits(30) == "30";
    assert DecimalDigits(300) == "300";
    assert DecimalDigits(3000) == "3000";
  }

  /** 3 is written "3". */
  lemma FmtThree()
    ensures FmtReal(3.0) == "3"
  {
    Padded30000();
    FmtRealWhole(3.0, 30000, "3", "3");
  }

  lemma Padded40000()
    ensures PaddedDigits(40000) == "4" + Zeros(4)
  {
    assert DecimalDigits(4) == "4";
    assert DecimalDigits(40) == "40";
    assert DecimalDigits(400) == "400";
    assert DecimalDigits(4000) == "4000";
  }

  /** -4 is written "-4": the sign is a hyphen. */
  lemma FmtMinusFour()
    ensures FmtReal(-4.0) == "-4"
  {
    Padded40000();
    FmtRealWhole(-4.0, -40000, "4", "-4");
  }

  lemma DigitsOf10000()
    ensures DecimalDigits(10000) == "10000"
  {
    assert DecimalDigits(1) == "1";
    assert DecimalDigits(10) == "10";
    assert DecimalDigits(100) == "100";
    assert DecimalDigits(1000) == "1000";
  }

  lemma Padded100000()
    ensures PaddedDigits(100000) == "10" + Zeros(4)
  {
    DigitsOf10000();
    assert DecimalDigits(100000) == "100000";
  }

  /** 10 is written "10": the zero of the integer part stays. */
  lemma FmtTen()
    ensures FmtReal(10.0) == "10"
  {
    Padded100000();
    FmtRealWhole(10.0, 100000, "10", "10");
  }

  lemma Padded1000()
    ensures PaddedDigits(1000) == "0" + ("1" + Zeros(3))
  {
    assert DecimalDigits(1) == "1";
    assert DecimalDigits(10) == "10";
    assert DecimalDigits(100) == "100";
    assert DecimalDigits(1000) == "1000";
  }

  /** 0.1 is written "0.1", with the zero before the point. */
  lemma FmtOneTenth()
    ensures FmtReal(0.1) == "0.1"
  {
    Padded1000();
    FmtRealFraction(0.1, 1000, "0", "1", "0.1");
  }

  lemma Padded6667()
    ensures PaddedDigits(6667) == "0" + ("6667" + Zeros(0))
  {
    assert DecimalDigits(6) == "6";
    assert DecimalDigits(66) == "66";
    assert DecimalDigits(666) == "666";
    assert DecimalDigits(6667) == "6667";
  }

  /** 2/3 is written "0.6667": rounded at the fourth decimal. */
  lemma FmtTwoThirds()
    ensures FmtReal(2.0 / 3.0) == "0.6667"
  {
    Padded6667();
    FmtRealFraction(2.0 / 3.0, 6667, "0", "6667", "0.6667");
  }

  lemma Padded24000()
    ensures PaddedDigits(24000) == "2" + ("4" + Zeros(3))
  {
    assert DecimalDigits(2) == "2";
    assert DecimalDigits(24) == "24";
    assert DecimalDigits(240) == "240";
    assert DecimalDigits(2400) == "2400";
  }

  /** 2.4 is written "2.4". */
  lemma FmtTwoPointFour()
    ensures FmtReal(2.4) == "2.4"
  {
    Padded24000();
    FmtRealFraction(2.4, 24000, "2", "4", "2.4");
  }

  lemma Padded32000()
    ensures PaddedDigits(32000) == "3" + ("2" + Zeros(3))
  {
    assert DecimalDigits(3) == "3";
    assert DecimalDigits(32) == "32";
    assert DecimalDigits(320) == "320";
    assert DecimalDigits(3200) == "3200";
  }

  /** -3.2 is written "-3.2". */
  lemma FmtMinusThreePointTwo()
    ensures FmtReal(-3.2) == "-3.2"
  {
    Padded32000();
    FmtRealFraction(-3.2, -32000, "3", "2", "-3.2");
  }

  lemma Padded800()
    ensures PaddedDigits(800) == "0" + ("08" + Zeros(2))
  {
    assert DecimalDigits(8) == "8";
    assert DecimalDigits(80) == "80";
    assert DecimalDigits(800) == "800";
  }

  /** 0.08 is written "0.08": a zero before the last nonzero fraction digit stays. */
  lemma FmtEightHundredths()
    ensures FmtReal(0.08) == "0.08"
  {
    Padded800();
    FmtRealFraction(0.08, 800, "0", "08", "0.08");
  }

  lemma Padded2000()
    ensures PaddedDigits(2000) == "0" + ("2" + Zeros(3))
  {
    assert DecimalDigits(2) == "2";
    assert DecimalDigits(20) == "20";
    assert DecimalDigits(200) == "200";
    assert DecimalDigits(2000) == "2000";
  }

  /** -0.2 is written "-0.2": the sign goes before the zero of the integer part. */
  lemma FmtMinusTwoTenths()
    ensures FmtReal(-0.2) == "-0.2"
  {
    Padded2000();
    FmtRealFraction(-0.2, -2000, "0", "2", "-0.2");
  }

  lemma Padded10000()
    ensures PaddedDigits(10000) == "1" + Zeros(4)
  {
    DigitsOf10000();
  }

  /** 1 is written "1". */
  lemma FmtOne()
    ensures FmtReal(1.0) == "1"
  {
    Padded10000();
    FmtRealWhole(1.0, 10000, "1", "1");
  }
}
