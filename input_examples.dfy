/**
 * Concrete answers to the three questions of `getUserInputs`, worked through
 * the general lemmas of NumberInput and UserInputs.
 */
module InputExamples {
  import opened Strings
  import opened SiteAddress
  import opened NumberInput
  import opened UserInputs

  lemma NumeralsSpelled()
    ensures Numeral(0) == "0" && Numeral(3) == "3" && Numeral(-3) == "-3"
    ensures Numeral(12) == "12"
  {
    assert NatNumeral(12) == NatNumeral(1) + [DigitChar(2)];
  }

  lemma ParseIntOfZero()
    ensures ParseInt("0") == Some(0)
  {
    var text := "" + Numeral(0) + "";
    assert text == "0" by { NumeralsSpelled(); }
    assert ParseInt(text) == Some(0) by { ParseIntOfNumeral("", 0, ""); }
  }

  lemma ParseIntOfMinusThree()
    ensures ParseInt("-3") == Some(-3)
  {
    var text := "" + Numeral(-3) + "";
    assert text == "-3" by { NumeralsSpelled(); }
    assert ParseInt(text) == Some(-3) by { ParseIntOfNumeral("", -3, ""); }
  }

  lemma ParseIntOfLetters()
    ensures ParseInt("abc") == None
  {
    ParseIntNoDigits("", "", "abc");
    assert "" + "" + "abc" == "abc";
  }

  /** Only the leading digits count: "3abc" reads as 3. */
  lemma ParseIntOfLeadingDigits()
    ensures ParseInt("3abc") == Some(3)
  {
    var text := "" + Numeral(3) + "abc";
    assert text == "3abc" by { NumeralsSpelled(); }
    assert ParseInt(text) == Some(3) by { ParseIntOfNumeral("", 3, "abc"); }
  }

  lemma PaddedParts()
    ensures " " + Numeral(12) + " " == " 12 "
  {
    NumeralsSpelled();
  }

  /** Whitespace around the numeral is ignored. */
  lemma ParseIntOfPadded()
    ensures ParseInt(" 12 ") == Some(12)
  {
    ParseIntOfNumeral(" ", 12, " ");
    PaddedParts();
  }

  /** Without a radix argument, "0x10" is hexadecimal: 16. */
  lemma ParseIntOfHexLiteral()
    ensures ParseInt("0x10") == Some(16)
  {
    HexLiteralParts();
    ParseIntOfHex("", "", "0x", "10", "");
  }

  lemma HexLiteralParts()
    ensures "0x10" == "" + "" + "0x" + "10" + ""
    ensures AllDigitsIn("10", Sixteen) && ValueOf("10", Sixteen) == 16
  {
    assert ValueOf("10", Sixteen) == ValueOf("1", Sixteen) * 16 by { assert "10"[..1] == "1"; }
  }

  /**
   * With a usable address and client, "0", "-3" and "abc" are refused as counts
   * and "3abc" is taken as three repetitions.
   */
  lemma CountAnswers(rawUrl: string, rawClient: string)
    requires !AllWhitespace(rawUrl) && !AllWhitespace(rawClient)
    ensures GetUserInputs(rawUrl, rawClient, "0") == Rejected(InvalidCount)
    ensures GetUserInputs(rawUrl, rawClient, "-3") == Rejected(InvalidCount)
    ensures GetUserInputs(rawUrl, rawClient, "abc") == Rejected(InvalidCount)
    ensures GetUserInputs(rawUrl, rawClient, "3abc")
      == Accepted(SessionInputs(FormatUrl(rawUrl), rawClient, 3))
  {
    ParseIntOfZero();
    ParseIntOfMinusThree();
    ParseIntOfLetters();
    ParseIntOfLeadingDigits();
  }

  /** A blank address is refused before anything else is looked at. */
  lemma BlankAddressFirst(rawClient: string, rawCount: string)
    ensures GetUserInputs("   ", rawClient, rawCount) == Rejected(InvalidUrl)
  {
    assert AllWhitespace("   ");
  }

  /** A blank client is refused once the address is usable, whatever the count. */
  lemma BlankClient(rawUrl: string, rawCount: string)
    requires !AllWhitespace(rawUrl)
    ensures GetUserInputs(rawUrl, "\t", rawCount) == Rejected(InvalidClient)
  {
    assert AllWhitespace("\t");
  }
}
