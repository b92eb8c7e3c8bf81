/**
 * The acceptance logic of `getUserInputs` (index.js, lines 87-110). The three
 * answers the user types are parameters; a rejected answer ends the program with
 * a message, modelled as a `Rejected` outcome naming the answer at fault. The
 * checks run in the order of the source: the address, then the client, then the
 * number of invoices, and the first failure is the one reported.
 */
module UserInputs {
  import opened Strings
  import opened SiteAddress
  import opened NumberInput

  datatype InputError =
    | InvalidUrl     // "URL inválida": the address answer is blank
    | InvalidClient  // "Cliente inválido": the client answer is blank
    | InvalidCount   // the count is not a number, or is below one

  /** What `getUserInputs` hands to the automation. */
  datatype SessionInputs = SessionInputs(url: string, client: string, repetitions: int)

  datatype Outcome = Accepted(inputs: SessionInputs) | Rejected(error: InputError)

  /** `!answer.trim()`: the answer is empty once trimmed, that is, it is all whitespace. */
  predicate IsBlank(answer: string)
    ensures IsBlank(answer) <==> AllWhitespace(answer)
  {
    Trim(answer) == []
  }

  /**
   * The count check of lines 104-108 is `isNaN(n) || n < 1` on `n = parseInt(answer)`;
   * NaN is `None`.
   */
  function GetUserInputs(rawUrl: string, rawClient: string, rawCount: string): (r: Outcome)
    ensures r == Rejected(InvalidUrl) <==> AllWhitespace(rawUrl)
    ensures r == Rejected(InvalidClient) <==> !AllWhitespace(rawUrl) && AllWhitespace(rawClient)
    ensures r == Rejected(InvalidCount)
      <==> (!AllWhitespace(rawUrl) && !AllWhitespace(rawClient)
        && (ParseInt(rawCount).None? || ParseInt(rawCount).value < 1))
    ensures r.Accepted? ==> r.inputs.url == FormatUrl(rawUrl)
    ensures r.Accepted? ==> r.inputs.client == rawClient
    ensures r.Accepted? ==> ParseInt(rawCount) == Some(r.inputs.repetitions) && r.inputs.repetitions >= 1
  {
    if IsBlank(rawUrl) then Rejected(InvalidUrl)
    else
      var url := FormatUrl(rawUrl);
      if IsBlank(rawClient) then Rejected(InvalidClient)
      else
        var repetitions := ParseInt(rawCount);
        if repetitions.None? || repetitions.value < 1 then Rejected(InvalidCount)
        else Accepted(SessionInputs(url, rawClient, repetitions.value))
  }

  /**
   * A count typed as the numeral of `n`, possibly padded with whitespace before
   * it and followed by text that is not a digit, is accepted exactly when `n` is
   * at least one, and then `n` is the number of repetitions.
   */
  lemma NumeralCount(rawUrl: string, rawClient: string, w: string, n: int, rest: string)
    requires !AllWhitespace(rawUrl) && !AllWhitespace(rawClient)
    requires AllWhitespace(w)
    requires rest == [] || !IsDecimalDigit(rest[0])
    requires n == 0 ==> rest == [] || (rest[0] != 'x' && rest[0] != 'X')
    ensures var r := GetUserInputs(rawUrl, rawClient, w + Numeral(n) + rest);
      && (r.Accepted? <==> n >= 1)
      && (r.Accepted? ==> r.inputs.repetitions == n)
  {
    ParseIntOfNumeral(w, n, rest);
  }
}
