/**
 * The site-address normaliser `formatUrl` of index.js. Whatever the user types
 * (a bare client name, a full address, an address with a protocol or trailing
 * slashes) is rewritten to `https://<segment>.softcomshop.com.br`.
 */
module SiteAddress {
  import opened Strings

  /** The fixed domain every client instance lives under. */
  const Domain: string := ".softcomshop.com.br"
  const Https: string := "https://"
  const Http: string := "http://"

  /** `s` starts with the lower-case text `p` when letter case is ignored. */
  predicate StartsWithIgnoringCase(s: string, p: string) {
    |p| <= |s| && ToLower(s[..|p|]) == p
  }

  /**
   * The replacement `/^https?:\/\//i -> ""`: one leading `https://` or `http://`,
   * in any letter case, is removed; nothing else is.
   */
  function StripProtocol(s: string): (r: string)
    ensures |r| <= |s| && r == s[|s| - |r|..]
    ensures |s| - |r| in {0, |Http|, |Https|}
    ensures r != s ==> ToLower(s[..|s| - |r|]) == Https || ToLower(s[..|s| - |r|]) == Http
    ensures r == s <==> !StartsWithIgnoringCase(s, Https) && !StartsWithIgnoringCase(s, Http)
  {
    if StartsWithIgnoringCase(s, Https) then s[|Https|..]
    else if StartsWithIgnoringCase(s, Http) then s[|Http|..]
    else s
  }

  /**
   * Lines 73-77: when the lower-cased text mentions the domain, the part before
   * the first exact-case occurrence of the domain; otherwise the whole text.
   * The result is the whole text when the exact-case domain is absent (even if
   * the domain occurs in other capitals), and otherwise a prefix followed by
   * the domain that does not contain it.
   */
  function ClientPart(input: string): (client: string)
    ensures client <= input
    ensures !Contains(input, Domain) ==> client == input
    ensures client == input || OccursAt(input, Domain, |client|)
    ensures !Contains(client, Domain)
  {
    if Contains(ToLower(input), Domain) then
      BeforeFirstLacks(input, Domain);
      BeforeFirstWhole(input, Domain);
      BeforeFirst(input, Domain)
    else
      assert !Contains(input, Domain) by {
        LowerConstants();
        if Contains(input, Domain) { ContainsLowered(input, Domain); }
      }
      input
  }

  /**
   * The lower-cased `includes` test of line 74 never changes the outcome:
   * lines 73-77 always compute `split(domain)[0]`.
   */
  lemma ClientPartIsSplit(input: string)
    ensures ClientPart(input) == BeforeFirst(input, Domain)
  {
    LowerConstants();
    if Contains(input, Domain) {
      ContainsLowered(input, Domain);
    } else {
      BeforeFirstWhole(input, Domain);
    }
  }

  /**
   * Lines 66-69: trim, drop trailing slashes, drop one leading protocol. What is
   * left does not end in a slash.
   */
  function Cleaned(raw: string): (r: string)
    ensures |r| <= |raw|
    ensures r == [] || r[|r| - 1] != '/'
  {
    StripProtocol(DropTrailing(Trim(raw), '/'))
  }

  /** Line 80: drop trailing dots, then trim; no whitespace is left at either end. */
  function Tidy(client: string): (r: string)
    ensures |r| <= |client|
    ensures Trimmed(r)
  {
    Trim(DropTrailing(client, '.'))
  }

  /**
   * The client segment `formatUrl` puts between `https://` and the domain. It
   * has no whitespace at either end and never contains the exact-case domain.
   */
  function Segment(raw: string): (r: string)
    ensures |r| <= |raw|
    ensures Trimmed(r)
    ensures !Contains(r, Domain)
  {
    var client := ClientPart(Cleaned(raw));
    CleanedClientLacksDomain(client);
    Tidy(client)
  }

  /**
   * `formatUrl`: the canonical address of the client instance the user meant.
   * Whatever is typed, it is `https://`, then a segment with no whitespace at
   * either end, then `.softcomshop.com.br`.
   */
  function FormatUrl(raw: string): (url: string)
    ensures |url| >= |Https| + |Domain|
    ensures url[..|Https|] == Https && url[|url| - |Domain|..] == Domain
    ensures Trimmed(url[|Https|..|url| - |Domain|])
  {
    var seg := Segment(raw);
    ThreePartSlices(Https, seg, Domain);
    Https + seg + Domain
  }

  /** The cleaned text is a contiguous piece of what was typed. */
  lemma CleanedIsTyped(raw: string)
    ensures Contains(raw, Cleaned(raw))
  {
    var t := Trim(raw);
    var d := DropTrailing(t, '/');
    assert Contains(raw, t) by { TrimContained(raw); }
    SuffixOfPrefixContained(raw, t, d, StripProtocol(d));
  }

  /** The tidied client is a contiguous piece of the client part. */
  lemma TidyIsPiece(client: string)
    ensures Contains(client, Tidy(client))
  {
    var d := DropTrailing(client, '.');
    SliceContained(client, 0, |d|);
    assert client[0..|d|] == d;
    TrimContained(d);
    ContainsTrans(client, d, Trim(d));
  }

  /** The segment is always a contiguous piece of what the user typed. */
  lemma SegmentIsTyped(raw: string)
    ensures Contains(raw, Segment(raw))
  {
    var c := Cleaned(raw);
    var client := ClientPart(c);
    var r := Tidy(client);
    assert Contains(raw, c) by { CleanedIsTyped(raw); }
    assert Contains(client, r) by { TidyIsPiece(client); }
    PieceOfPrefixContained(raw, c, client, r);
    assert Segment(raw) == r;
  }

  lemma FourParts(a: string, b: string, c: string, e: string)
    ensures a + (b + c) + e == a + b + c + e
  {
  }

  lemma ThreePartSlices(a: string, b: string, c: string)
    ensures (a + b + c)[..|a|] == a
    ensures (a + b + c)[|a|..|a| + |b|] == b
    ensures (a + b + c)[|a|..] == b + c
    ensures (a + b + c)[|a| + |b|..] == c
  {
  }

  lemma CleanedClientLacksDomain(client: string)
    requires !Contains(client, Domain)
    ensures !Contains(Tidy(client), Domain)
  {
    TidyIsPiece(client);
    if Contains(Tidy(client), Domain) {
      ContainsTrans(client, Tidy(client), Domain);
    }
  }

  lemma DomainHasNoBorder(k: int)
    requires 0 < k < |Domain|
    ensures Domain[k..] != Domain[..|Domain| - k]
  {
    var suffix := Domain[k..];
    var prefix := Domain[..|Domain| - k];
    assert suffix[0] == Domain[k] && prefix[0] == Domain[0] == '.';
    if Domain[k] == '.' {
      assert k == 12 || k == 16;
      assert suffix[1] == Domain[k + 1] != 's';
      assert prefix[1] == Domain[1] == 's';
    }
  }

  /**
   * When `seg` does not mention the domain, the first occurrence of the domain
   * in `seg + Domain + rest` is the one right after `seg`.
   */
  lemma BeforeFirstDomain(seg: string, rest: string)
    requires !Contains(seg, Domain)
    ensures BeforeFirst(seg + Domain + rest, Domain) == seg
  {
    var s := seg + Domain + rest;
    assert s[|seg|..|seg| + |Domain|] == Domain;
    assert OccursAt(s, Domain, |seg|);
    forall i | 0 <= i < |seg| ensures !OccursAt(s, Domain, i) {
      NoDomainBefore(seg, rest, i);
    }
    assert s[..|seg|] == seg;
  }

  /** No occurrence of the domain in `seg + Domain + rest` starts inside `seg`. */
  lemma NoDomainBefore(seg: string, rest: string, i: int)
    requires !Contains(seg, Domain) && 0 <= i < |seg|
    ensures !OccursAt(seg + Domain + rest, Domain, i)
  {
    var s := seg + Domain + rest;
    var window := s[i..i + |Domain|];
    if i + |Domain| <= |seg| {
      assert window == seg[i..i + |Domain|];
      assert !OccursAt(seg, Domain, i);
    } else {
      var k := |seg| - i;
      var tail := s[|seg|..|seg| + |Domain|];
      assert tail == Domain;
      assert window[k..] == s[|seg|..i + |Domain|] == tail[..|Domain| - k];
      DomainHasNoBorder(k);
    }
  }

  /** Text with no upper-case ASCII letter is its own lower-case form. */
  lemma {:induction false} ToLowerOfLower(s: string)
    requires forall i :: 0 <= i < |s| ==> !('A' <= s[i] <= 'Z')
    ensures ToLower(s) == s
  {
  }

  lemma LowerConstants()
    ensures ToLower(Https) == Https && ToLower(Http) == Http && ToLower(Domain) == Domain
  {
    ToLowerOfLower(Https);
    ToLowerOfLower(Http);
    ToLowerOfLower(Domain);
  }

  /** Both protocol prefixes have a colon at index 4, so text without a colon keeps its start. */
  lemma NoColonNoProtocol(s: string)
    requires forall i :: 0 <= i < |s| ==> s[i] != ':'
    ensures StripProtocol(s) == s
  {
    assert Http[4] == ':' && Https[5] == ':';
    if |s| >= |Http| {
      assert ToLower(s[..|Http|])[4] == LowerChar(s[4]) != ':';
    }
    if |s| >= |Https| {
      assert ToLower(s[..|Https|])[5] == LowerChar(s[5]) != ':';
    }
  }

  /** The domain starts with a dot, so text without a dot never contains it, in any case. */
  lemma NoDotNoDomain(s: string)
    requires forall i :: 0 <= i < |s| ==> s[i] != '.'
    ensures !Contains(s, Domain) && !Contains(ToLower(s), Domain)
  {
    forall k | 0 <= k <= |s| - |Domain|
      ensures !OccursAt(s, Domain, k) && !OccursAt(ToLower(s), Domain, k)
    {
      assert s[k..k + |Domain|][0] == s[k] != Domain[0];
      assert ToLower(s)[k..k + |Domain|][0] == LowerChar(s[k]) != Domain[0];
    }
  }

  /**
   * Normalising an address that is already canonical hands back its segment with
   * trailing dots and then whitespace removed (the second pass of lines 66-83).
   */
  lemma {:induction false} SegmentOfCanonical(seg: string)
    requires Trimmed(seg) && !Contains(seg, Domain)
    ensures Segment(Https + seg + Domain) == Tidy(seg)
  {
    CleanedOfCanonical(seg);
    ClientPartOfSegment(seg);
  }

  /** A canonical address loses exactly its `https://` in lines 66-69. */
  lemma CleanedOfCanonical(seg: string)
    ensures Cleaned(Https + seg + Domain) == seg + Domain
  {
    var u := Https + seg + Domain;
    ThreePartSlices(Https, seg, Domain);
    assert u[0] == Https[0] == 'h';
    assert u[|u| - 1] == Domain[|Domain| - 1] == 'r';
    TrimOfTrimmed(u);
    assert DropTrailing(u, '/') == u;
    LowerConstants();
  }

  /** Text that mentions the domain only right after `seg` yields `seg` in lines 73-77. */
  lemma ClientPartBeforeDomain(seg: string, rest: string)
    requires !Contains(seg, Domain)
    ensures ClientPart(seg + Domain + rest) == seg
  {
    var t := seg + Domain + rest;
    assert t[|seg|..|seg| + |Domain|] == Domain;
    assert OccursAt(t, Domain, |seg|);
    LowerConstants();
    ContainsLowered(t, Domain);
    BeforeFirstDomain(seg, rest);
  }

  lemma ClientPartOfSegment(seg: string)
    requires !Contains(seg, Domain)
    ensures ClientPart(seg + Domain) == seg
  {
    ClientPartBeforeDomain(seg, []);
    assert seg + Domain + [] == seg + Domain;
  }

  predicate EndsWithDot(s: string) {
    s != [] && s[|s| - 1] == '.'
  }

  /**
   * `formatUrl` is idempotent on an input exactly when the segment it produces
   * does not end in a dot: the second pass strips that dot.
   */
  lemma FormatUrlIdempotent(raw: string)
    ensures FormatUrl(FormatUrl(raw)) == FormatUrl(raw) <==> !EndsWithDot(Segment(raw))
  {
    var seg := Segment(raw);
    SegmentOfCanonical(seg);
    var kept := DropTrailing(seg, '.');
    if EndsWithDot(seg) {
      assert |kept| < |seg|;
      assert |Segment(FormatUrl(raw))| < |seg|;
    } else {
      assert kept == seg;
      TrimOfTrimmed(seg);
    }
  }

  /** Text that is trimmed, has no trailing slash and no colon passes lines 66-69 untouched. */
  lemma CleanedKeeps(s: string)
    requires Trimmed(s) && (s == [] || s[|s| - 1] != '/')
    requires forall i :: 0 <= i < |s| ==> s[i] != ':'
    ensures Cleaned(s) == s
  {
    TrimOfTrimmed(s);
    DropTrailingKeeps(s, '/');
    NoColonNoProtocol(s);
  }

  /** Trimmed text that does not end in a dot passes line 80 untouched. */
  lemma TidyKeeps(s: string)
    requires Trimmed(s) && !EndsWithDot(s)
    ensures Tidy(s) == s
  {
    DropTrailingKeeps(s, '.');
    TrimOfTrimmed(s);
  }

  /**
   * Trailing slashes typed after the address are ignored, as long as they are
   * not separated from it by whitespace (line 66 trims before it strips slashes).
   */
  lemma TrailingSlashesIgnored(x: string, slashes: string)
    requires forall i :: 0 <= i < |slashes| ==> slashes[i] == '/'
    requires x == [] || !IsWhitespace(x[|x| - 1])
    ensures FormatUrl(x + slashes) == FormatUrl(x)
  {
    CleanedIgnoresSlashes(x, slashes);
  }

  lemma CleanedIgnoresSlashes(x: string, slashes: string)
    requires forall i :: 0 <= i < |slashes| ==> slashes[i] == '/'
    requires x == [] || !IsWhitespace(x[|x| - 1])
    ensures Cleaned(x + slashes) == Cleaned(x)
  {
    TrimIgnoresSlashes(x, slashes);
    DropTrailingAppend(Trim(x), slashes, '/');
  }

  lemma TrimIgnoresSlashes(x: string, slashes: string)
    requires forall i :: 0 <= i < |slashes| ==> slashes[i] == '/'
    requires x == [] || !IsWhitespace(x[|x| - 1])
    ensures Trim(x + slashes) == Trim(x) + slashes
  {
    if AllWhitespace(x) {
      assert x == [] && x + slashes == slashes;
      TrimOfTrimmed(slashes);
    } else {
      var xs := x + slashes;
      assert slashes != [] ==> xs[|xs| - 1] == '/';
      assert slashes == [] ==> xs == x;
      TrimEndOfTrimmed(xs);
      TrimStartAppend(x, slashes);
      TrimEndOfTrimmed(x);
    }
  }

  /** Lines 66-69 on `p + x`: the head `p` survives trimming and slash stripping. */
  lemma TrimAndSlashesBehindHead(p: string, x: string)
    requires p != [] && !IsWhitespace(p[0])
    requires x != [] && !IsWhitespace(x[0]) && x[0] != '/'
    ensures DropTrailing(Trim(p + x), '/') == p + DropTrailing(Trim(x), '/')
    ensures DropTrailing(Trim(x), '/') <= x && DropTrailing(Trim(x), '/') != []
  {
    assert !AllWhitespace(x);
    TrimEndPrepend(p, x);
    var e := TrimEnd(x);
    assert e != [] && e[0] == x[0];
    TrimStartOfTrimmed(p + e);
    TrimStartOfTrimmed(e);
    DropTrailingPrepend(p, e, '/');
  }

  /** One protocol prefix, in any letter case, is what `StripProtocol` removes from `p + u`. */
  lemma StripProtocolHead(p: string, u: string)
    requires ToLower(p) == Https || ToLower(p) == Http
    ensures StripProtocol(p + u) == u
  {
    LowerConstants();
    var pu := p + u;
    assert pu[..|p|] == p;
    if ToLower(p) == Http {
      assert |pu| >= |Https| ==> ToLower(pu[..|Https|])[4] == LowerChar(p[4]) == ':';
    }
  }

  /**
   * One leading `http://` or `https://`, in any letter case, is ignored: the
   * address typed with it normalises like the address typed without it.
   */
  lemma ProtocolIgnored(p: string, x: string)
    requires ToLower(p) == Https || ToLower(p) == Http
    requires x != [] && !IsWhitespace(x[0]) && x[0] != '/'
    requires StripProtocol(x) == x
    ensures FormatUrl(p + x) == FormatUrl(x)
  {
    ProtocolIgnoredCleaned(p, x);
  }

  lemma ProtocolIgnoredCleaned(p: string, x: string)
    requires ToLower(p) == Https || ToLower(p) == Http
    requires x != [] && !IsWhitespace(x[0]) && x[0] != '/'
    requires StripProtocol(x) == x
    ensures Cleaned(p + x) == Cleaned(x)
  {
    LowerConstants();
    assert LowerChar(p[0]) == 'h';
    TrimAndSlashesBehindHead(p, x);
    var u := DropTrailing(Trim(x), '/');
    StripProtocolHead(p, u);
    NoProtocolInPrefix(u, x);
  }

  /** A prefix of text that carries no protocol carries none either. */
  lemma NoProtocolInPrefix(u: string, x: string)
    requires u <= x && StripProtocol(x) == x
    ensures StripProtocol(u) == u
  {
    if |u| >= |Https| { assert u[..|Https|] == x[..|Https|]; }
    if |u| >= |Http| { assert u[..|Http|] == x[..|Http|]; }
  }

  /**
   * The blank check of line 90 looks at the raw answer, before normalising: an
   * answer made only of slashes passes it and yields an address whose segment
   * is empty.
   */
  lemma SlashesOnly(slashes: string)
    requires slashes != [] && forall i :: 0 <= i < |slashes| ==> slashes[i] == '/'
    ensures !AllWhitespace(slashes)
    ensures Segment(slashes) == []
  {
    assert !IsWhitespace(slashes[0]);
    TrimOfTrimmed(slashes);
    assert DropTrailing(slashes, '/') == [];
  }

  /** A host label as people type it: letters, digits and hyphens. */
  predicate PlainLabel(n: string) {
    n != [] && forall i :: 0 <= i < |n| ==> IsLabelChar(n[i])
  }

  predicate IsLabelChar(c: char) {
    'a' <= c <= 'z' || 'A' <= c <= 'Z' || '0' <= c <= '9' || c == '-'
  }

  lemma PlainLabelChars(n: string)
    requires PlainLabel(n)
    ensures Trimmed(n) && !EndsWithDot(n) && n[|n| - 1] != '/'
    ensures forall i :: 0 <= i < |n| ==> n[i] != ':' && n[i] != '.'
  {
    assert IsLabelChar(n[0]) && IsLabelChar(n[|n| - 1]);
  }

  lemma PlainLabelFacts(n: string)
    requires PlainLabel(n)
    ensures Tidy(n) == n && Cleaned(n) == n && ClientPart(n) == n
    ensures !Contains(n, Domain)
  {
    PlainLabelChars(n);
    CleanedKeeps(n);
    TidyKeeps(n);
    NoDotNoDomain(n);
  }

  /** A bare label with the domain appended, and possibly dots after it, is kept as typed. */
  lemma LabelWithDomainCleaned(n: string, dots: string)
    requires PlainLabel(n)
    requires forall i :: 0 <= i < |dots| ==> dots[i] == '.'
    ensures Cleaned(n + Domain + dots) == n + Domain + dots
  {
    PlainLabelChars(n);
    var s := n + Domain + dots;
    assert s[0] == n[0];
    assert s[|s| - 1] == if dots == [] then Domain[|Domain| - 1] else dots[|dots| - 1];
    forall i | 0 <= i < |s| ensures s[i] != ':' {
      if i < |n| { assert s[i] == n[i]; }
      else if i < |n| + |Domain| { assert s[i] == Domain[i - |n|]; }
      else { assert s[i] == dots[i - |n| - |Domain|]; }
    }
    CleanedKeeps(s);
  }

  /**
   * The inputs people type for client `n` all give the segment `n`, so all
   * normalise to `https://n.softcomshop.com.br`: the bare label (this lemma),
   * the label with the domain, the domain followed by stray dots, and the full
   * address with a trailing slash (the lemmas below).
   */
  lemma PlainLabelBare(n: string)
    requires PlainLabel(n)
    ensures Segment(n) == n
  {
    PlainLabelFacts(n);
  }

  /** Once lines 66-69 leave `n` and the domain, the segment is `n`. */
  lemma SegmentOfLabelWithDomain(x: string, n: string)
    requires PlainLabel(n) && Cleaned(x) == n + Domain
    ensures Segment(x) == n
  {
    PlainLabelFacts(n);
    ClientPartOfSegment(n);
  }

  lemma PlainLabelWithDomain(n: string)
    requires PlainLabel(n)
    ensures Segment(n + Domain) == n
  {
    PlainLabelWithDots(n, []);
    assert n + Domain + [] == n + Domain;
  }

  lemma PlainLabelWithDots(n: string, dots: string)
    requires PlainLabel(n)
    requires forall i :: 0 <= i < |dots| ==> dots[i] == '.'
    ensures Segment(n + Domain + dots) == n
  {
    var x := n + Domain + dots;
    assert Cleaned(x) == x by { LabelWithDomainCleaned(n, dots); }
    assert ClientPart(x) == n && Tidy(n) == n by {
      PlainLabelFacts(n);
      ClientPartBeforeDomain(n, dots);
    }
  }

  lemma PlainLabelFullAddress(n: string)
    requires PlainLabel(n)
    ensures Segment(Https + n + Domain + "/") == n
  {
    PlainLabelFullAddressCleaned(n);
    SegmentOfLabelWithDomain(Https + n + Domain + "/", n);
  }

  lemma PlainLabelFullAddressCleaned(n: string)
    ensures Cleaned(Https + n + Domain + "/") == n + Domain
  {
    var u := Https + n + Domain;
    assert u[|u| - 1] == Domain[|Domain| - 1];
    CleanedIgnoresSlashes(u, "/");
    CleanedOfCanonical(n);
  }

  /**
   * Lines 74-76: the domain typed in another letter case passes the
   * case-insensitive test but is not found by the case-sensitive split, so the
   * whole text becomes the segment and the domain ends up appended twice.
   */
  lemma CaseOnlyDomainKept(n: string, d: string)
    requires PlainLabel(n) && ToLower(d) == Domain && d != Domain
    ensures FormatUrl(n + d) == Https + n + d + Domain
  {
    var s := n + d;
    assert Cleaned(s) == s by {
      CaseOnlyDomainText(n, d);
      CleanedKeeps(s);
    }
    assert ClientPart(s) == s by { CaseOnlyDomainClient(n, d); }
    assert Tidy(s) == s by {
      CaseOnlyDomainText(n, d);
      TidyKeeps(s);
    }
    assert Segment(s) == s;
    assert Https + s + Domain == Https + n + d + Domain by { FourParts(Https, n, d, Domain); }
  }

  /** A label followed by the domain in other capitals is trimmed, colon-free and ends in a letter. */
  lemma CaseOnlyDomainText(n: string, d: string)
    requires PlainLabel(n) && ToLower(d) == Domain
    ensures var s := n + d; Trimmed(s) && s[|s| - 1] != '/' && !EndsWithDot(s)
    ensures forall i :: 0 <= i < |n + d| ==> (n + d)[i] != ':'
  {
    PlainLabelChars(n);
    CasedDomainChars(d);
    var s := n + d;
    assert s[0] == n[0] && s[|s| - 1] == d[|d| - 1];
    forall i | 0 <= i < |s| ensures s[i] != ':' {
      if i < |n| { assert s[i] == n[i]; } else { assert s[i] == d[i - |n|]; }
    }
  }

  /** Any capitalisation of the domain ends in a letter and holds no colon. */
  lemma CasedDomainChars(d: string)
    requires ToLower(d) == Domain
    ensures d != [] && (d[|d| - 1] == 'r' || d[|d| - 1] == 'R')
    ensures forall i :: 0 <= i < |d| ==> d[i] != ':'
  {
    assert LowerChar(d[|d| - 1]) == Domain[|Domain| - 1] == 'r';
    forall i | 0 <= i < |d| ensures d[i] != ':' {
      assert LowerChar(d[i]) == Domain[i] != ':';
    }
  }

  lemma CaseOnlyDomainClient(n: string, d: string)
    requires PlainLabel(n) && ToLower(d) == Domain && d != Domain
    ensures ClientPart(n + d) == n + d
  {
    CasedDomainLowered(n, d);
    CasedDomainNotExact(n, d);
    BeforeFirstWhole(n + d, Domain);
  }

  /** Lower-cased, a label followed by any capitalisation of the domain mentions the domain. */
  lemma CasedDomainLowered(n: string, d: string)
    requires ToLower(d) == Domain
    ensures Contains(ToLower(n + d), Domain)
  {
    var s := n + d;
    ToLowerSlice(s, |n|, |s|);
    assert s[|n|..|s|] == d;
    assert OccursAt(ToLower(s), Domain, |n|);
  }

  /** A label followed by the domain in other capitals does not contain the exact-case domain. */
  lemma CasedDomainNotExact(n: string, d: string)
    requires PlainLabel(n) && ToLower(d) == Domain && d != Domain
    ensures !Contains(n + d, Domain)
  {
    PlainLabelChars(n);
    var s := n + d;
    assert |d| == |Domain|;
    forall k | 0 <= k <= |s| - |Domain| ensures !OccursAt(s, Domain, k) {
      var window := s[k..k + |Domain|];
      if k < |n| {
        assert window[0] == s[k] == n[k];
        assert n[k] != '.' && Domain[0] == '.';
      } else {
        assert k == |n|;
        assert window == d;
      }
    }
  }

  /**
   * The idempotence corner case: `n + ". ."` loses its last dot, then the
   * final trim exposes another one, which survives into the address; a second
   * pass removes it.
   */
  lemma DotSpaceDotSegment(n: string)
    requires PlainLabel(n)
    ensures Segment(n + ". .") == n + "."
  {
    PlainLabelChars(n);
    var s := n + ". .";
    assert Trimmed(s);
    forall i | 0 <= i < |s| ensures s[i] != ':' {
      if i < |n| { assert s[i] == n[i]; }
    }
    CleanedKeeps(s);
    forall k | 0 <= k <= |s| - |Domain| ensures !OccursAt(ToLower(s), Domain, k) {
      assert ToLower(s)[k..k + |Domain|][0] == LowerChar(n[k]) != Domain[0];
    }
    assert ClientPart(s) == s;
    DotSpaceDotTidy(n);
  }

  lemma DotSpaceDotTidy(n: string)
    requires PlainLabel(n)
    ensures Tidy(n + ". .") == n + "."
  {
    PlainLabelChars(n);
    var s := n + ". .";
    var t := n + ". ";
    assert s[..|s| - 1] == t;
    DropTrailingKeeps(t, '.');
    assert DropTrailing(s, '.') == t;
    assert t[..|t| - 1] == n + ".";
    TrimEndOfTrimmed(n + ".");
    assert TrimEnd(t) == n + ".";
    TrimStartOfTrimmed(n + ".");
  }

  lemma DotSpaceDotSecondPass(n: string)
    requires PlainLabel(n)
    ensures Segment(Https + (n + ".") + Domain) == n
  {
    PlainLabelChars(n);
    var m := n + ".";
    assert Trimmed(m);
    forall k | 0 <= k <= |m| - |Domain| ensures !OccursAt(m, Domain, k) {
      assert m[k..k + |Domain|][0] == n[k] != Domain[0];
    }
    SegmentOfCanonical(m);
    assert m[..|m| - 1] == n;
    assert DropTrailing(m, '.') == n;
    TrimOfTrimmed(n);
  }
}
