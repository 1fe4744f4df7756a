/** The hardened endpoint: a POST request's `seconds` field goes through a
    fixed chain of guards (emptiness, `is_numeric`, `intval`, the bounds
    0..30, `escapeshellarg`) before it reaches the `sleep` command. */
module Safe {
  import opened Wrappers
  import opened Decimal
  import opened PhpNumeric
  import opened PosixShell
  import opened Endpoint

  /** The guards after the emptiness check, and the command they build. */
  function ValidateAndBuild(seconds: string): (o: Outcome<int>)
    ensures o.Run? ==> 0 <= o.requested <= 30
    ensures o.Run? ==> o.command == "sleep '" + NatToDecimal(o.requested) + "'"
  {
    if !IsNumeric(seconds) then Error(NotANumber)
    else
      var secondsInt := Intval(seconds);
      if secondsInt < 0 || secondsInt > 30 then Error(OutOfRange)
      else
        var safeSeconds := EscapeShellArg(IntToDecimal(secondsInt));
        EscapeDecimal(secondsInt);
        Run("sleep " + safeSeconds, secondsInt)
  }

  /** Escaping a decimal only wraps it in quotes. */
  lemma EscapeDecimal(n: nat)
    ensures "sleep " + EscapeShellArg(IntToDecimal(n)) == "sleep '" + NatToDecimal(n) + "'"
  {
    var d := NatToDecimal(n);
    assert forall i :: 0 <= i < |d| ==> d[i] != '\'';
    assert EscapeBody(d) == d;
  }

  /** The whole request: method check, emptiness check, then the rest. */
  function Handle(requestMethod: string, field: Option<string>): Outcome<int> {
    if requestMethod != "POST" then Error(MethodRequired)
    else
      var seconds := FieldOrEmpty(field);
      if Empty(seconds) then Error(SecondsRequired) else ValidateAndBuild(seconds)
  }

  // ---------------------------------------------------------------------------
  // The guards, one by one

  /** Any method but POST is refused before the field is looked at. */
  lemma MethodGuard(requestMethod: string, field: Option<string>)
    requires requestMethod != "POST"
    ensures Handle(requestMethod, field) == Error(MethodRequired)
  {
  }

  /** A missing field, an empty one, and "0" (which PHP's `empty()` counts as
      empty) are refused as missing, and nothing else is. */
  lemma RequiredGuard(field: Option<string>)
    ensures Handle("POST", field) == Error(SecondsRequired) <==> field == None || field == Some("") || field == Some("0")
  {
  }

  /** A character that cannot occur in a numeric string (`;`, `|`, `&`, `$`,
      `(`, a backtick, a quote, a letter other than e) gets the input refused
      as not a number, so no command is built. */
  lemma MetacharRejected(seconds: string, i: nat)
    requires i < |seconds| && !IsNumericChar(seconds[i])
    ensures Handle("POST", Some(seconds)) == Error(NotANumber)
  {
    if IsNumeric(seconds) {
      NumericChars(seconds);
    }
  }

  /** A request whose field is the text of a numeral is judged by the
      numeral's integer part. */
  lemma {:induction false} HandleNumeral(n: Numeral)
    requires WellFormed(n) && !Empty(Render(n))
    ensures IsNumeric(Render(n)) && Intval(Render(n)) == NumeralIntval(n)
    ensures Handle("POST", Some(Render(n))) == ValidateAndBuild(Render(n))
  {
    ParseRender(n);
  }

  /** A numeral whose integer part lies in 0..30 runs `sleep 'N'`. */
  lemma RunsNumeral(n: Numeral)
    requires WellFormed(n) && !Empty(Render(n)) && 0 <= NumeralIntval(n) <= 30
    ensures Handle("POST", Some(Render(n))) == Run("sleep '" + NatToDecimal(NumeralIntval(n)) + "'", NumeralIntval(n))
  {
    HandleNumeral(n);
  }

  /** A numeral whose integer part lies outside 0..30 is out of range. */
  lemma RefusesNumeral(n: Numeral)
    requires WellFormed(n) && !Empty(Render(n)) && !(0 <= NumeralIntval(n) <= 30)
    ensures Handle("POST", Some(Render(n))) == Error(OutOfRange)
  {
    HandleNumeral(n);
  }

  /** "31" and "-1" are out of range. */
  lemma OutOfRangeExamples()
    ensures Handle("POST", Some("31")) == Error(OutOfRange)
    ensures Handle("POST", Some("-1")) == Error(OutOfRange)
  {
    RefusesThirtyOne();
    RefusesMinusOne();
  }

  lemma RefusesThirtyOne()
    ensures Handle("POST", Some("31")) == Error(OutOfRange)
  {
    var n := Numeral("", NoSign, "31", false, "", None, "");
    assert Render(n) == "31";
    assert DecimalValue("31") == 31;
    IntvalDropsFraction(n);
    RefusesNumeral(n);
  }

  lemma RefusesMinusOne()
    ensures Handle("POST", Some("-1")) == Error(OutOfRange)
  {
    var n := Numeral("", Minus, "1", false, "", None, "");
    assert Render(n) == "-1";
    assert DecimalValue("1") == 1;
    IntvalDropsFraction(n);
    RefusesNumeral(n);
  }

  /** "30" is the largest value that runs. */
  lemma AcceptsThirty()
    ensures Handle("POST", Some("30")) == Run("sleep '30'", 30)
  {
    var n := Numeral("", NoSign, "30", false, "", None, "");
    assert Render(n) == "30";
    assert DecimalValue("30") == 30;
    RunsExample(n, 30);
    SleepLiterals();
  }

  /** "30.9" truncates to 30 and runs `sleep '30'`. */
  lemma TruncatesThirtyPointNine()
    ensures Handle("POST", Some("30.9")) == Run("sleep '30'", 30)
  {
    var n := Numeral("", NoSign, "30", true, "9", None, "");
    assert Render(n) == "30.9";
    assert DecimalValue("30") == 30;
    RunsExample(n, 30);
    SleepLiterals();
  }

  /** "-0.5" truncates toward zero, to 0, and runs `sleep '0'`. */
  lemma TruncatesMinusHalf()
    ensures Handle("POST", Some("-0.5")) == Run("sleep '0'", 0)
  {
    var n := Numeral("", Minus, "0", true, "5", None, "");
    assert Render(n) == "-0.5";
    assert DecimalValue("0") == 0;
    RunsExample(n, 0);
    SleepLiterals();
  }

  lemma RunsExample(n: Numeral, k: nat)
    requires WellFormed(n) && n.exponent.None? && !Empty(Render(n))
    requires DecimalValue(n.whole) == k <= 30 && (n.sign == Minus ==> k == 0)
    ensures Handle("POST", Some(Render(n))) == Run("sleep '" + NatToDecimal(k) + "'", k)
  {
    IntvalDropsFraction(n);
    RunsNumeral(n);
  }

  lemma SleepLiterals()
    ensures "sleep '" + NatToDecimal(30) + "'" == "sleep '30'"
    ensures "sleep '" + NatToDecimal(0) + "'" == "sleep '0'"
  {
    assert NatToDecimal(30) == "30";
    assert NatToDecimal(0) == "0";
  }

  // ---------------------------------------------------------------------------
  // The order of the guards

  datatype Guard = Guard(passes: bool, message: string)

  /** The message of the first guard that fails, if any. */
  function FirstFailure(guards: seq<Guard>): Option<string> {
    if guards == [] then None
    else if !guards[0].passes then Some(guards[0].message)
    else FirstFailure(guards[1..])
  }

  lemma FirstFailureOfFour(a: Guard, b: Guard, c: Guard, d: Guard)
    ensures FirstFailure([a, b, c, d]) ==
      if !a.passes then Some(a.message)
      else if !b.passes then Some(b.message)
      else if !c.passes then Some(c.message)
      else if !d.passes then Some(d.message)
      else None
  {
    assert [d][1..] == [];
    assert FirstFailure([d]) == if !d.passes then Some(d.message) else None;
    assert [c, d][1..] == [d];
    assert FirstFailure([c, d]) == if !c.passes then Some(c.message) else FirstFailure([d]);
    assert [b, c, d][1..] == [c, d];
    assert FirstFailure([b, c, d]) == if !b.passes then Some(b.message) else FirstFailure([c, d]);
    assert [a, b, c, d][1..] == [b, c, d];
  }

  /** The guards in the order the script checks them. */
  function Guards(requestMethod: string, seconds: string): seq<Guard> {
    [ Guard(requestMethod == "POST", MethodRequired),
      Guard(!Empty(seconds), SecondsRequired),
      Guard(IsNumeric(seconds), NotANumber),
      Guard(IsNumeric(seconds) && 0 <= Intval(seconds) <= 30, OutOfRange) ]
  }

  /** The request fails exactly when some guard fails, and then with the
      message of the first failing guard alone. */
  lemma GuardOrder(requestMethod: string, field: Option<string>)
    ensures var failure := FirstFailure(Guards(requestMethod, FieldOrEmpty(field)));
            && (Handle(requestMethod, field).Error? <==> failure.Some?)
            && (failure.Some? ==> Handle(requestMethod, field) == Error(failure.value))
  {
    var g := Guards(requestMethod, FieldOrEmpty(field));
    FirstFailureOfFour(g[0], g[1], g[2], g[3]);
    assert g == [g[0], g[1], g[2], g[3]];
  }

  // ---------------------------------------------------------------------------
  // What an accepted request runs

  /** A request is accepted exactly when all guards pass; it then echoes the
      truncated integer N, never the raw text, and runs `sleep 'N'`. */
  lemma Accepted(requestMethod: string, field: Option<string>)
    ensures var seconds := FieldOrEmpty(field);
            Handle(requestMethod, field).Run? <==>
              requestMethod == "POST" && !Empty(seconds) && IsNumeric(seconds) && 0 <= Intval(seconds) <= 30
    ensures var seconds := FieldOrEmpty(field);
            Handle(requestMethod, field).Run? ==>
              && Handle(requestMethod, field).requested == Intval(seconds)
              && Handle(requestMethod, field).command == "sleep '" + NatToDecimal(Intval(seconds)) + "'"
  {
  }

  /** Injection safety at the level of characters: a command the guards
      build is `sleep '`, one or two digits, and a closing quote, and the
      digits spell the `requested` value. */
  lemma {:induction false} CommandCharacters(seconds: string)
    requires ValidateAndBuild(seconds).Run?
    ensures var o := ValidateAndBuild(seconds);
            var digits := o.command[7..|o.command| - 1];
            && 9 <= |o.command| <= 10
            && o.command == "sleep '" + digits + "'"
            && AllDigits(digits)
            && DecimalValue(digits) == o.requested
  {
    var o := ValidateAndBuild(seconds);
    var d := NatToDecimal(o.requested);
    assert o.command == "sleep '" + d + "'";
    DecimalLength(o.requested, 2);
    assert o.command[7..|o.command| - 1] == d;
  }

  /** Injection safety at the level of the shell: a command the guards build
      is the word `sleep`, a blank, and one word the shell reads as the
      literal decimal of `requested`. */
  lemma CommandWords(seconds: string)
    requires ValidateAndBuild(seconds).Run?
    ensures var o := ValidateAndBuild(seconds);
            exists w :: o.command == "sleep " + w && ReadWord(w) == Some(NatToDecimal(o.requested))
  {
    var o := ValidateAndBuild(seconds);
    var d := NatToDecimal(o.requested);
    var w := EscapeShellArg(d);
    assert w == "'" + d + "'";
    assert o.command == "sleep " + w;
    ReadWordEscapeShellArg(d);
  }

  /** Both the script and its corrected form run only what the guards build
      from the field, so `CommandCharacters` and `CommandWords` hold for
      every command either of them runs. */
  lemma RunsOnlyBuiltCommands(requestMethod: string, field: Option<string>)
    ensures Handle(requestMethod, field).Run? ==>
              requestMethod == "POST" && Handle(requestMethod, field) == ValidateAndBuild(FieldOrEmpty(field))
    ensures HandleIntended(requestMethod, field).Run? ==>
              requestMethod == "POST" && HandleIntended(requestMethod, field) == ValidateAndBuild(FieldOrEmpty(field))
  {
  }

  // ---------------------------------------------------------------------------
  // "0" is refused by the emptiness guard

  /** The script as written refuses "0" as missing although 0 is inside the
      bounds, while other spellings of zero ("00", "0.0", "-0") run `sleep '0'`. */
  lemma ZeroRefused()
    ensures IsNumeric("0") && Intval("0") == 0
    ensures Handle("POST", Some("0")) == Error(SecondsRequired)
    ensures Handle("POST", Some("00")) == Run("sleep '0'", 0)
    ensures Handle("POST", Some("0.0")) == Run("sleep '0'", 0)
    ensures Handle("POST", Some("-0")) == Run("sleep '0'", 0)
  {
    ZeroNumeric();
    DoubleZeroRuns();
    ZeroPointZeroRuns();
    MinusZeroRuns();
  }

  lemma ZeroNumeric()
    ensures IsNumeric("0") && Intval("0") == 0
  {
    var z := Numeral("", NoSign, "0", false, "", None, "");
    assert Render(z) == "0";
    assert DecimalValue("0") == 0;
    ParseRender(z);
    IntvalDropsFraction(z);
  }

  lemma DoubleZeroRuns()
    ensures Handle("POST", Some("00")) == Run("sleep '0'", 0)
  {
    var n := Numeral("", NoSign, "00", false, "", None, "");
    assert Render(n) == "00";
    assert DecimalValue("00") == 0;
    RunsExample(n, 0);
    SleepLiterals();
  }

  lemma ZeroPointZeroRuns()
    ensures Handle("POST", Some("0.0")) == Run("sleep '0'", 0)
  {
    var n := Numeral("", NoSign, "0", true, "0", None, "");
    assert Render(n) == "0.0";
    assert DecimalValue("0") == 0;
    RunsExample(n, 0);
    SleepLiterals();
  }

  lemma MinusZeroRuns()
    ensures Handle("POST", Some("-0")) == Run("sleep '0'", 0)
  {
    var n := Numeral("", Minus, "0", false, "", None, "");
    assert Render(n) == "-0";
    assert DecimalValue("0") == 0;
    RunsExample(n, 0);
    SleepLiterals();
  }

  /** The check the emptiness guard evidently stands for: only a missing or
      empty field is refused as missing. */
  function HandleIntended(requestMethod: string, field: Option<string>): Outcome<int> {
    if requestMethod != "POST" then Error(MethodRequired)
    else
      var seconds := FieldOrEmpty(field);
      if seconds == "" then Error(SecondsRequired) else ValidateAndBuild(seconds)
  }

  /** With the intended check every numeric input whose integer part lies in
      0..30 runs, "0" included; on every other input it agrees with the
      script. */
  lemma IntendedAcceptsRange(requestMethod: string, field: Option<string>)
    ensures var seconds := FieldOrEmpty(field);
            HandleIntended(requestMethod, field).Run? <==>
              requestMethod == "POST" && IsNumeric(seconds) && 0 <= Intval(seconds) <= 30
    ensures field != Some("0") ==> HandleIntended(requestMethod, field) == Handle(requestMethod, field)
  {
    if FieldOrEmpty(field) == "" {
      assert Parse("") == None;
    }
  }

  /** The intended check lets "0" through to `sleep '0'`. */
  lemma IntendedRunsZero()
    ensures HandleIntended("POST", Some("0")) == Run("sleep '0'", 0)
  {
    ZeroRefused();
  }

}
