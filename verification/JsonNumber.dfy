/** What the number that is read denotes: digits by their places, and powers of ten as integers. */
module JsonNumber {
  import opened Bytes
  import opened JsonValue
  import opened JsonText
  import R = JsonRoundTrip
  import G = JsonGrammar

  // ----- digits -----

  /** The integer that digits write, each counting by its place. */
  function PlaceValue(t: Text): int {
    if t == [] then 0 else ((t[0] as int) - 48) * R.Tens(|t| - 1) + PlaceValue(t[1..])
  }

  lemma {:induction false} PlaceLast(t: Text, d: Byte)
    ensures PlaceValue(t + [d]) == 10 * PlaceValue(t) + ((d as int) - 48)
    decreases t
  {
    var all := t + [d];
    if t == [] {
      assert all[1..] == [];
    } else {
      PlaceLast(t[1..], d);
      assert all[1..] == t[1..] + [d];
      PlaceScaled((t[0] as int) - 48, |t| - 1);
    }
  }

  lemma PlaceScaled(d: int, k: nat)
    ensures d * R.Tens(k + 1) == 10 * (d * R.Tens(k))
  {
    assert R.Tens(k + 1) == 10 * R.Tens(k);
  }

  /** Reading digit by digit from the left gives that integer, leading zeros or not. */
  lemma {:induction false} DigitsArePlaces(t: Text)
    ensures G.DigitsValue(t) == PlaceValue(t)
    decreases |t|
  {
    if t != [] {
      var n := |t| - 1;
      DigitsArePlaces(t[..n]);
      PlaceLast(t[..n], t[n]);
      assert t == t[..n] + [t[n]];
    }
  }

  // ----- powers of ten -----

  lemma {:induction false} PowerUp(k: nat)
    ensures G.PowerOfTen(k) == R.Tens(k) as real
  {
    if k > 0 {
      PowerUp(k - 1);
    }
  }

  lemma {:induction false} PowerDown(k: nat)
    ensures G.PowerOfTen(-(k as int)) * R.Tens(k) as real == 1.0
  {
    if k > 0 {
      PowerDown(k - 1);
      var p, q := G.PowerOfTen(-(k as int)), G.PowerOfTen(1 - (k as int));
      assert p == q / 10.0;
      assert R.Tens(k) as real == 10.0 * R.Tens(k - 1) as real;
      assert p * (10.0 * R.Tens(k - 1) as real) == q * R.Tens(k - 1) as real;
    }
  }

  /** `magnitude` is the integer `n` times ten to the power of `k`. */
  predicate IsScaled(magnitude: real, n: int, k: int) {
    if k >= 0 then magnitude == (n * R.Tens(k)) as real else magnitude * R.Tens(-k) as real == n as real
  }

  lemma ScaledExactly(digits: Text, k: int)
    ensures IsScaled(G.Scaled(digits, k), PlaceValue(digits), k)
  {
    hide G.DigitsValue;
    hide G.PowerOfTen;
    hide R.Tens;
    DigitsArePlaces(digits);
    var n := PlaceValue(digits);
    hide PlaceValue;
    if k >= 0 {
      PowerUp(k);
      IntegerProduct(n, R.Tens(k));
    } else {
      PowerDown(-k);
      Cancelled(n as real, G.PowerOfTen(k), R.Tens(-k) as real);
    }
  }

  lemma IntegerProduct(a: int, b: int)
    ensures a as real * b as real == (a * b) as real
  {
  }

  lemma Cancelled(a: real, b: real, c: real)
    requires b * c == 1.0
    ensures a * b * c == a
  {
    assert a * b * c == a * (b * c);
  }

  // ----- numbers -----

  /** The exponent written, 0 where there is none. */
  function ExponentWritten(e: Option<Exponent>): int {
    match e
    case None => 0
    case Some(x) => if x.sign == Some(MINUS) then -PlaceValue(x.digits) else PlaceValue(x.digits)
  }

  /**
   * What a number means: the number read is the integer that all its digits write, times
   * ten to the power of the exponent less the digits behind the point, below zero exactly
   * as the sign has it.
   */
  lemma NumberMeans(
    negative: bool, whole: Text, fraction: Option<Text>, exponent: Option<Exponent>, post: Text)
    requires AcceptedNumber(negative, whole, fraction, exponent) && R.Delimited(post)
    requires |NumberText(negative, whole, fraction, exponent)| <= NUMBER_LIMIT
    ensures var digits := match fraction case None => [] case Some(ds) => ds;
      var r := G.ParseNumber(NumberText(negative, whole, fraction, exponent) + post);
      && r.Ok? && r.rest == post && r.value.Number?
      && IsScaled(if negative then -r.value.value else r.value.value, PlaceValue(whole + digits),
                  ExponentWritten(exponent) - |digits|)
  {
    hide G.ParseNumber;
    hide G.Scaled;
    hide NumberText;
    hide IsScaled;
    NumberReadExactly(negative, whole, fraction, exponent, post);
    var digits := match fraction case None => [] case Some(ds) => ds;
    if exponent.Some? {
      DigitsArePlaces(exponent.value.digits);
    }
    ScaledExactly(whole + digits, ExponentWritten(exponent) - |digits|);
  }

  /** The balance 88.50 is read as 88.5, and its integer is 88. */
  lemma BalanceRead(post: Text, open: nat)
    requires R.Delimited(post)
    ensures G.ParseValue([56, 56, DOT, 53, 48] + post, open) == G.Ok(Number(88.5), post)
    ensures ValueInt(88.5) == 88
  {
    hide G.ParseValue;
    hide G.ParseNumber;
    var whole: Text, digits: Text := [56, 56], [53, 48];
    var t := NumberText(false, whole, Some(digits), None);
    assert t == [56, 56, DOT, 53, 48];
    assert (t + post)[0] == 56;
    R.NumberDispatch(t + post, open);
    NumberMeans(false, whole, Some(digits), None, post);
    FourDigits(whole + digits);
    assert R.Tens(2) == 100;
    var v := G.ParseNumber(t + post).value.value;
    assert v * 100.0 == 8850.0;
  }

  lemma FourDigits(t: Text)
    requires t == [56, 56, 53, 48]
    ensures PlaceValue(t) == 8850
  {
    assert t[1..] == [56, 53, 48] && t[1..][1..] == [53, 48] && t[1..][1..][1..] == [48];
    assert t[1..][1..][1..][1..] == [];
    assert R.Tens(3) == 1000 && R.Tens(2) == 100 && R.Tens(1) == 10 && R.Tens(0) == 1;
    assert PlaceValue([48]) == 0 && PlaceValue([53, 48]) == 50 && PlaceValue([56, 53, 48]) == 850;
  }

  /** The integer kept beside the number: cut off toward zero, and at the ends of the 32-bit range. */
  lemma ValueIntExactly(d: real)
    ensures var n := ValueInt(d);
      && -0x8000_0000 <= n <= 0x7FFF_FFFF
      && (d >= 2147483647.0 ==> n == 0x7FFF_FFFF) && (d <= -2147483648.0 ==> n == -0x8000_0000)
      && (0.0 <= d < 2147483647.0 ==> n as real <= d < n as real + 1.0)
      && (-2147483648.0 < d <= 0.0 ==> n as real - 1.0 < d <= n as real)
  {
  }
}
