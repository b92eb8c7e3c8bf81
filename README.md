# Site-address normalisation and input checks of the NFS-e sequence automation

The automation (`index.js`) drives a browser session against a client's
SoftcomShop instance and, a chosen number of times, creates a service invoice
and then deletes it again (`runIteration`, index.js lines 150-172). Before any
browser work it asks three questions: the client's site address, the client to
put on the invoices, and how many times to repeat. This project models the
part of the program that decides what those answers mean:

- `formatUrl` (module `SiteAddress`): whatever the user types (a bare client
  name, a full address, an address with `http://`/`https://`, trailing slashes
  or stray dots) is rewritten to `https://<segment>.softcomshop.com.br`. The
  JavaScript string built-ins it uses (`trim`, `toLowerCase`, `includes`,
  `split(sep)[0]`, the regular-expression replacements) are modelled in module
  `Strings`.
- `parseInt` without a radix (module `NumberInput`): leading whitespace, an
  optional sign, a `0x`/`0X` prefix for hexadecimal, then the longest run of
  digits; no digits is NaN (`None`).
- the acceptance logic of `getUserInputs` (module `UserInputs`): a pure
  function of the three answers that either rejects (naming the first answer at
  fault, as the program's exit does) or returns the normalised address, the
  client as typed and the number of repetitions.
- the main loop (module `Iterations`): the iteration numbers 1..n passed to the
  per-invoice routine, in order.

Modules `SiteAddressExamples` and `InputExamples` work concrete answers through
the general lemmas.

The comment at index.js line 95 says the address is formatted however the
user typed it, so one would expect a formatted address to come back unchanged
when it is formatted again. The code is idempotent on an input exactly when
the segment it produces does not end in a dot (`SiteAddress.FormatUrlIdempotent`); `"acme. ."` becomes
`https://acme..softcomshop.com.br`, which normalises again to
`https://acme.softcomshop.com.br`
(`SiteAddressExamples.IdempotenceCounterexample`). The model follows the code.

Whitespace is the exact ECMAScript WhiteSpace and LineTerminator set that
`trim` and `parseInt` skip. `toLowerCase` is modelled on ASCII letters only;
the one place it is used is the test for the all-ASCII domain, which contains
no letter that a non-ASCII character lower-cases to, so the outcome is the same.

## Model

| member | source | states |
|---|---|---|
| Strings.IsWhitespace | index.js:66 | defined as the ECMAScript WhiteSpace and LineTerminator characters, the set `trim` removes |
| Strings.Trim | index.js:66 | the result has no whitespace at either end and is the slice of the input left after cutting only whitespace from its start and its end; it is empty exactly when the input is all whitespace |
| Strings.TrimStart | index.js:66 | leading-whitespace removal keeps a suffix, everything it skips is whitespace, and what is kept does not start with whitespace |
| Strings.TrimEnd | index.js:66 | trailing-whitespace removal keeps a prefix, everything it drops is whitespace, and what is kept does not end in whitespace |
| Strings.TrimEnds | index.js:66 | trimming both ends leaves no whitespace at either end, and nothing at all exactly when the text is all whitespace |
| Strings.ContainsInTrim | index.js:80 | whatever occurs in the trimmed text occurs in the text |
| Strings.TrimContained | index.js:66 | the trimmed text is a contiguous piece of the text |
| Strings.TrimOfTrimmed | index.js:80 | trimming text with no whitespace at either end changes nothing |
| Strings.TrimStartAppend | index.js:66 | leading-whitespace removal stops inside a non-blank head: the tail is kept whole |
| Strings.TrimEndPrepend | index.js:66 | trailing-whitespace removal stops inside a non-blank tail: the head is kept whole |
| Strings.DropTrailing | index.js:66 | `/c+$/ -> ""` keeps a prefix, everything it drops is `c`, and what is kept does not end in `c` |
| Strings.DropTrailingKeeps | index.js:66 | text that does not end in `c` is left alone |
| Strings.DropTrailingAppend | index.js:66 | appending more `c`s does not change what is kept |
| Strings.DropTrailingPrepend | index.js:66 | a head in front of text that does not start with `c` is never dropped |
| Strings.BeforeFirst | index.js:76 | `split(sep)[0]` is a prefix containing no occurrence of `sep`, followed by `sep` unless it is the whole text |
| Strings.BeforeFirstWhole | index.js:76 | `split(sep)[0]` is the whole text exactly when `sep` does not occur |
| Strings.BeforeFirstLacks | index.js:76 | `split(sep)[0]` never contains `sep` |
| Strings.LowerChar | index.js:74 | defined as `toLowerCase` of one character: an ASCII capital becomes its small letter, anything else is kept |
| Strings.ToLower | index.js:74 | lower-casing keeps the length, leaves no ASCII capital, changes exactly the ASCII capitals, and turns each into the small letter of the same position in the alphabet |
| Strings.Contains | index.js:74 | defined as `String.prototype.includes`: the pattern occurs at some position of the text |
| Strings.ContainsLowered | index.js:74 | an occurrence of an all-lower-case pattern survives lower-casing the text |
| Strings.ContainsInSlice | index.js:76 | an occurrence inside a slice is an occurrence in the whole text |
| SiteAddress.StartsWithIgnoringCase | index.js:69 | defined as an anchored case-insensitive match: the text opens with the pattern once lower-cased |
| SiteAddress.StripProtocol | index.js:69 | the result is a suffix of the input that is 0, 7 or 8 characters shorter; what is removed is `https://` or `http://` in some letter case, and the input is unchanged exactly when it opens with neither |
| SiteAddress.StripProtocolHead | index.js:69 | `https://` or `http://` in any letter case is removed, and only that one prefix, whatever follows it |
| SiteAddress.NoProtocolInPrefix | index.js:69 | a prefix of text that carries no protocol carries none either |
| SiteAddress.NoColonNoProtocol | index.js:69 | text with no colon is never changed by the protocol replacement |
| SiteAddress.LowerConstants | index.js:69-74 | `https://`, `http://` and the domain are already lower case |
| SiteAddress.NoDotNoDomain | index.js:74-76 | text with no dot contains the domain in no letter case |
| SiteAddress.ClientPart | index.js:73-77 | the client part is a prefix of the cleaned text that never contains the exact-case domain; it is the whole text when the exact-case domain is absent, and otherwise is followed by the domain |
| SiteAddress.ClientPartIsSplit | index.js:73-77 | the lower-cased `includes` test never changes the outcome: the client part is always `split(domain)[0]` of the text |
| SiteAddress.Cleaned | index.js:66-69 | the cleaned text is no longer than the input and does not end in a slash |
| SiteAddress.CleanedIsTyped | index.js:66-69 | the cleaned text is a contiguous piece of what was typed |
| SiteAddress.Tidy | index.js:80 | the tidied client is no longer than the client part and has no whitespace at either end |
| SiteAddress.TidyIsPiece | index.js:80 | the tidied client is a contiguous piece of the client part |
| SiteAddress.Segment | index.js:64-84 | the segment is no longer than the input, has no whitespace at either end and never contains the exact-case domain |
| SiteAddress.SegmentIsTyped | index.js:64-84 | the segment is a contiguous piece of what was typed |
| SiteAddress.FormatUrl | index.js:64-84 | every result is `https://`, then a segment with no whitespace at either end, then `.softcomshop.com.br` |
| SiteAddress.ClientPartBeforeDomain | index.js:73-77 | text that mentions the domain first right after `seg` yields `seg`, whatever follows |
| SiteAddress.ClientPartOfSegment | index.js:73-77 | a segment without the domain, followed by the domain, gives that segment back |
| SiteAddress.CleanedClientLacksDomain | index.js:80 | the final clean-up never creates an occurrence of the domain |
| SiteAddress.BeforeFirstDomain | index.js:76 | the first exact-case occurrence of the domain in `seg + domain + rest` is the one after `seg`, because the domain does not overlap itself |
| SiteAddress.NoDomainBefore | index.js:76 | no occurrence of the domain in `seg + domain + rest` starts inside a `seg` that does not contain it |
| SiteAddress.DomainHasNoBorder | index.js:72 | no proper suffix of `.softcomshop.com.br` is also a prefix of it |
| SiteAddress.CaseOnlyDomainClient | index.js:74-76 | the domain typed in another letter case passes the case-insensitive test but is not split off |
| SiteAddress.CasedDomainLowered | index.js:74 | the domain in any letter case passes the lower-cased `includes` test |
| SiteAddress.CasedDomainNotExact | index.js:76 | a label followed by the domain in other capitals holds no exact-case occurrence for `split` to find |
| SiteAddress.CaseOnlyDomainKept | index.js:74-76 | for such input the whole text becomes the segment and the domain is appended after it |
| SiteAddress.CleanedOfCanonical | index.js:66-69 | a canonical address loses exactly its `https://` in the first two steps |
| SiteAddress.SegmentOfCanonical | index.js:64-84 | normalising a canonical address gives back its segment with trailing dots and then whitespace removed |
| SiteAddress.FormatUrlIdempotent | index.js:64-84 | normalising twice equals normalising once if and only if the segment does not end in a dot |
| SiteAddress.CleanedKeeps | index.js:66-69 | trimmed text with no trailing slash and no colon passes the first two steps untouched |
| SiteAddress.TidyKeeps | index.js:80 | trimmed text that does not end in a dot passes the final clean-up untouched |
| SiteAddress.TrimIgnoresSlashes | index.js:66 | trimming text followed by slashes trims the text and keeps the slashes |
| SiteAddress.CleanedIgnoresSlashes | index.js:66-69 | slashes typed right after the address do not change the cleaned text |
| SiteAddress.TrailingSlashesIgnored | index.js:66 | slashes typed right after the address do not change the result |
| SiteAddress.TrimAndSlashesBehindHead | index.js:66 | a head in front of the address survives trimming and slash stripping |
| SiteAddress.ProtocolIgnoredCleaned | index.js:66-69 | one leading protocol in any letter case does not change the cleaned text |
| SiteAddress.ProtocolIgnored | index.js:66-69 | one leading protocol in any letter case does not change the result |
| SiteAddress.SlashesOnly | index.js:89-96 | an answer of slashes only passes the blank check, which looks at the raw answer, and yields an empty segment |
| SiteAddress.PlainLabelChars | index.js:64-84 | a label of letters, digits and hyphens has no whitespace ends, dot, slash or colon |
| SiteAddress.PlainLabelFacts | index.js:64-84 | such a label passes every step of the normaliser unchanged and does not contain the domain |
| SiteAddress.LabelWithDomainCleaned | index.js:66-69 | a label followed by the domain and dots passes the first two steps unchanged |
| SiteAddress.PlainLabelBare | index.js:64-84 | a bare label is its own segment |
| SiteAddress.SegmentOfLabelWithDomain | index.js:73-80 | once the first steps leave a label and the domain, the segment is the label |
| SiteAddress.PlainLabelWithDomain | index.js:64-84 | the label followed by the domain gives the label as segment |
| SiteAddress.PlainLabelWithDots | index.js:64-84 | the label followed by the domain and stray dots gives the label as segment |
| SiteAddress.PlainLabelFullAddressCleaned | index.js:66-69 | the full address with a trailing slash is cleaned to the label and the domain |
| SiteAddress.PlainLabelFullAddress | index.js:64-84 | the full address with a trailing slash gives the label as segment |
| SiteAddress.DotSpaceDotTidy | index.js:80 | `n + ". ."` loses its last dot, then the trim exposes another one, which stays |
| SiteAddress.DotSpaceDotSegment | index.js:64-84 | the segment of `n + ". ."` is `n + "."` |
| SiteAddress.DotSpaceDotSecondPass | index.js:64-84 | normalising `https://n..softcomshop.com.br` again gives the segment `n` |
| SiteAddressExamples.AcmeBare | index.js:64-84 | `"acme"` becomes `https://acme.softcomshop.com.br` |
| SiteAddressExamples.AcmeWithDomain | index.js:64-84 | `"acme.softcomshop.com.br"` becomes `https://acme.softcomshop.com.br` |
| SiteAddressExamples.AcmeFullAddress | index.js:64-84 | `"https://acme.softcomshop.com.br/"` becomes `https://acme.softcomshop.com.br` |
| SiteAddressExamples.AcmeCapitalsWithDots | index.js:64-84 | `"ACME.softcomshop.com.br.."` becomes `https://ACME.softcomshop.com.br`: the label keeps its case |
| SiteAddressExamples.IdempotenceCounterexample | index.js:64-84 | `"acme. ."` becomes `https://acme..softcomshop.com.br`, which normalises again to a different address |
| SiteAddressExamples.UpperCaseDomain | index.js:74-76 | `"ACME.SOFTCOMSHOP.COM.BR"` becomes `https://ACME.SOFTCOMSHOP.COM.BR.softcomshop.com.br` |
| NumberInput.DigitValue | index.js:104 | a digit is worth less than the base; decimal digits exactly are worth less than ten, `0`-`9` are worth 0-9 and `a`-`f` in either case 10-15 |
| NumberInput.ValueOf | index.js:104 | `n` digits of a radix denote a number below the base to the power `n` |
| NumberInput.ParseUnsigned | index.js:104 | a number is read exactly when the text opens with a decimal digit and, after `0x`/`0X`, a hexadecimal digit follows |
| NumberInput.ParseInt | index.js:104 | `parseInt` is not NaN exactly when the text after leading whitespace and an optional sign starts a number in that sense; a negative result needs a minus sign |
| NumberInput.DigitRun | index.js:104 | the digits read are the longest prefix made of digits of the radix |
| NumberInput.NatNumeral | index.js:104 | the decimal numeral of `n` is non-empty, all digits, and starts with `0` only for zero |
| NumberInput.ValueOfNatNumeral | index.js:104 | reading the decimal numeral of `n` gives `n` |
| NumberInput.DigitRunOf | index.js:104 | digits followed by a non-digit are read exactly |
| NumberInput.TrimStartAfterWhitespace | index.js:104 | leading whitespace is skipped |
| NumberInput.ParseIntAfterWhitespace | index.js:104 | whitespace in front of the answer does not change what `parseInt` reads |
| NumberInput.ParseIntOfSigned | index.js:104 | a leading `+` or `-` is read as the sign of the number that follows it |
| NumberInput.ParseIntOfUnsigned | index.js:104 | without a sign the number is read as it stands |
| NumberInput.ParseIntParts | index.js:104 | whitespace, then an optional sign, then text not starting with whitespace or a sign: the sign is applied to the number read from that text |
| NumberInput.ParseUnsignedOfDecimal | index.js:104 | decimal digits followed by a non-digit, not opening `0x`, are read in radix ten |
| NumberInput.NumeralNotHex | index.js:104 | the numeral of `n` followed by text does not open `0x`/`0X` when `n` is not zero or the text does not start with `x` or `X` |
| NumberInput.ParseIntOfDecimal | index.js:104 | whitespace, an optional sign, decimal digits not opening `0x`, and text not starting with a digit read as the signed value of the digits |
| NumberInput.ParseIntOfNumeral | index.js:104 | the numeral of any integer `n`, padded before with whitespace and followed by non-digit text, reads as `n` |
| NumberInput.ParseIntNumeralRoundTrip | index.js:104 | every integer survives the round trip through its numeral |
| NumberInput.ParseIntOfPlusNumeral | index.js:104 | an explicit `+` is accepted and changes nothing |
| NumberInput.ParseIntOfHex | index.js:104 | a `0x`/`0X` prefix reads the following hex digits in radix 16, with the sign applied |
| NumberInput.ParseIntNoDigits | index.js:104 | no digit after whitespace and an optional sign gives NaN |
| UserInputs.GetUserInputs | index.js:87-110 | a blank address is rejected; a usable address with a blank client is rejected; otherwise a count that is NaN or below one is rejected (`isNaN(n) || n < 1`); each if and only if; an accepted session holds the normalised address, the client as typed and a count of at least one read by `parseInt` |
| UserInputs.IsBlank | index.js:90 | `!answer.trim()` holds exactly when the answer is all whitespace |
| UserInputs.NumeralCount | index.js:103-108 | a count typed as the numeral of `n` is accepted exactly when `n >= 1`, and then gives `n` repetitions |
| InputExamples.ParseIntOfZero | index.js:104 | `parseInt("0")` is 0 |
| InputExamples.ParseIntOfMinusThree | index.js:104 | `parseInt("-3")` is -3 |
| InputExamples.ParseIntOfLetters | index.js:104 | `parseInt("abc")` is NaN |
| InputExamples.ParseIntOfLeadingDigits | index.js:104 | `parseInt("3abc")` is 3 |
| InputExamples.ParseIntOfPadded | index.js:104 | `parseInt(" 12 ")` is 12 |
| InputExamples.ParseIntOfHexLiteral | index.js:104 | `parseInt("0x10")` is 16 |
| InputExamples.CountAnswers | index.js:103-108 | the counts `"0"`, `"-3"` and `"abc"` are refused and `"3abc"` is taken as three repetitions |
| InputExamples.BlankAddressFirst | index.js:89-93 | a blank address is refused whatever the other answers are |
| InputExamples.BlankClient | index.js:98-102 | a blank client is refused after a usable address, whatever the count |
| Iterations.IterationNumbers | index.js:195-197 | the loop runs `max(0, n)` times and passes the numbers 1, 2, ..., n in order |

## Left out

- The browser automation (launching the browser, logging in, filling the invoice form, the per-invoice routine `runIteration`), the settings object, the pauses and the log file: they are effects on a browser and a file, with nothing to compute.
- Reading the answers from the console: the three answers are parameters. The program stops asking after the first bad answer; the model takes all three answers and its outcome ignores those after the first bad one.
- The exit of the process and the message printed with it: a rejection is a `Rejected` outcome naming the answer at fault.
- The final wait for an empty line before the browser is closed: console input only.
- `toLowerCase` on letters outside ASCII: only ASCII letters are lower-cased (see above for why the outcome of the domain test is the same).
- JavaScript strings as UTF-16 code units: characters are modelled as Unicode scalar values. Every character the code tests for (whitespace, `/`, `.`, `:`, ASCII letters and digits) is in the Basic Multilingual Plane, so neither half of a surrogate pair matches any of them, just as a character outside that plane does not match any of them here; lengths and positions are counted in scalar values rather than code units.
- NumberInput.ParseInt: values are exact integers; JavaScript's rounding of numerals beyond 2^53 to the nearest double, the `Infinity` of very long numerals, and the distinction between `-0` and `0` are not modelled (none of them changes whether a count is accepted).
- Iterations.IterationNumbers: records the iteration numbers instead of running the iteration, which is browser work. The counter `i` at index.js line 195 is a double and the model counts in unbounded integers. So for an accepted count of 2^53 or more, `i++` stops growing at 2^53, the loop never ends and index 2^53 is passed on over and over. A numeral of 310 or more digits, which `parseInt` reads as `Infinity`, does the same. The contract holds only for counts below 2^53.
