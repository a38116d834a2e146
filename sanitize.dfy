/**
 * Input sanitizers for free text, user names, e-mail addresses and links.
 * Each is a chain of whole-string transformations; here each step is a
 * function of its own and the chain's output shape is stated on the result.
 */
module Sanitize {
  import opened Wrappers
  import opened Seqs
  import opened Text

  /** The characters U+0000-U+001F and U+007F. */
  predicate IsControl(c: char) {
    c as int <= 0x1F || c as int == 0x7F
  }

  predicate NotControl(c: char) {
    !IsControl(c)
  }

  /** Double quote, single quote, backtick and semicolon. */
  predicate IsQuoteOrSemicolon(c: char) {
    c == '"' || c == '\'' || c == '`' || c == ';'
  }

  predicate NotQuoteOrSemicolon(c: char) {
    !IsQuoteOrSemicolon(c)
  }

  /** A character every sanitizing step leaves alone. */
  predicate IsPlain(c: char) {
    !IsControl(c) && !IsQuoteOrSemicolon(c) && !IsSpace(c)
  }

  /** Removes every control character, keeping the rest in order. */
  function StripControl(s: string): (r: string)
    ensures forall i :: 0 <= i < |r| ==> !IsControl(r[i])
    ensures forall c :: c in r <==> c in s && !IsControl(c)
    ensures forall c :: !IsControl(c) ==> multiset(r)[c] == multiset(s)[c]
    ensures Subsequence(r, s)
  {
    KeepCount(s, NotControl);
    KeepOrdered(s, NotControl);
    Keep(s, NotControl)
  }

  /** Drops leading whitespace. */
  function TrimStart(s: string): (r: string)
    ensures |r| <= |s| && r == s[|s| - |r|..]
    ensures forall k :: 0 <= k < |s| - |r| ==> IsSpace(s[k])
    ensures r == [] || !IsSpace(r[0])
    ensures (s == [] || !IsSpace(s[0])) ==> r == s
  {
    if s != [] && IsSpace(s[0]) then
      var r := TrimStart(s[1..]);
      assert s[1..][|s| - 1 - |r|..] == s[|s| - |r|..];
      assert forall k :: 1 <= k < |s| - |r| ==> s[k] == s[1..][k - 1];
      r
    else s
  }

  /** Drops trailing whitespace. */
  function TrimEnd(s: string): (r: string)
    ensures |r| <= |s| && r == s[..|r|]
    ensures forall k :: |r| <= k < |s| ==> IsSpace(s[k])
    ensures r == [] || !IsSpace(r[|r| - 1])
    ensures (s == [] || !IsSpace(s[|s| - 1])) ==> r == s
  {
    if s != [] && IsSpace(s[|s| - 1]) then
      var r := TrimEnd(s[..|s| - 1]);
      assert s[..|s| - 1][..|r|] == s[..|r|];
      r
    else s
  }

  /** `String.prototype.trim`: the longest infix that neither starts nor ends with whitespace. */
  function Trim(s: string): (r: string)
    ensures forall c :: c in r ==> c in s
    ensures r == [] || (!IsSpace(r[0]) && !IsSpace(r[|r| - 1]))
    ensures (forall i :: 0 <= i < |s| ==> !IsSpace(s[i])) ==> r == s
  {
    var t := TrimStart(s);
    var r := TrimEnd(t);
    assert r == [] || !IsSpace(r[0]) by {
      if r != [] {
        assert r[0] == t[0];
      }
    }
    assert (forall i :: 0 <= i < |s| ==> !IsSpace(s[i])) ==> r == s by {
      if forall i :: 0 <= i < |s| ==> !IsSpace(s[i]) {
        assert t == s;
        assert t == [] || !IsSpace(t[|t| - 1]);
      }
    }
    SuffixMembers(s, t);
    PrefixMembers(t, r);
    r
  }

  /** The input is the whitespace TrimStart drops followed by its result. */
  lemma TrimStartSplit(s: string)
    ensures var lead := s[..|s| - |TrimStart(s)|];
      s == lead + TrimStart(s) && forall c :: c in lead ==> IsSpace(c)
  {
    var lead := s[..|s| - |TrimStart(s)|];
    forall c | c in lead
      ensures IsSpace(c)
    {
      var k :| 0 <= k < |lead| && lead[k] == c;
    }
  }

  /** The input is the result of TrimEnd followed by the whitespace it drops. */
  lemma TrimEndSplit(s: string)
    ensures var trail := s[|TrimEnd(s)|..];
      s == TrimEnd(s) + trail && forall c :: c in trail ==> IsSpace(c)
  {
    var trail := s[|TrimEnd(s)|..];
    forall c | c in trail
      ensures IsSpace(c)
    {
      var k :| 0 <= k < |trail| && trail[k] == c;
      assert trail[k] == s[|TrimEnd(s)| + k];
    }
  }

  /**
   * Trimming removes whitespace at the two edges only: the input is a run of
   * whitespace, then the result, then another run of whitespace.
   */
  lemma TrimEdges(s: string)
    ensures var lead, trail := s[..|s| - |TrimStart(s)|], TrimStart(s)[|Trim(s)|..];
      s == lead + Trim(s) + trail &&
      (forall c :: c in lead ==> IsSpace(c)) && (forall c :: c in trail ==> IsSpace(c))
  {
    var t, r := TrimStart(s), Trim(s);
    var lead, trail := s[..|s| - |t|], t[|r|..];
    TrimStartSplit(s);
    TrimEndSplit(t);
    assert r == TrimEnd(t);
    ConcatAssociative(lead, r, trail);
  }

  /** Filtering out whitespace, and possibly more, is not affected by trimming. */
  lemma TrimKeeps(s: string, p: char -> bool)
    requires forall c :: IsSpace(c) ==> !p(c)
    ensures Keep(Trim(s), p) == Keep(s, p)
  {
    TrimStartKeeps(s, p);
    TrimEndKeeps(TrimStart(s), p);
  }

  lemma {:induction false} TrimStartKeeps(s: string, p: char -> bool)
    requires forall c :: IsSpace(c) ==> !p(c)
    ensures Keep(TrimStart(s), p) == Keep(s, p)
  {
    if s != [] && IsSpace(s[0]) {
      TrimStartKeeps(s[1..], p);
    }
  }

  lemma {:induction false} TrimEndKeeps(s: string, p: char -> bool)
    requires forall c :: IsSpace(c) ==> !p(c)
    ensures Keep(TrimEnd(s), p) == Keep(s, p)
  {
    if s != [] && IsSpace(s[|s| - 1]) {
      var init := s[..|s| - 1];
      TrimEndKeeps(init, p);
      assert s == init + [s[|s| - 1]];
      KeepConcat(init, [s[|s| - 1]], p);
      assert Keep([s[|s| - 1]], p) == [];
    }
  }

  /** Removes every quote, backtick and semicolon, keeping the rest in order. */
  function DropQuotes(s: string): (r: string)
    ensures forall i :: 0 <= i < |r| ==> !IsQuoteOrSemicolon(r[i])
    ensures forall c :: c in r <==> c in s && !IsQuoteOrSemicolon(c)
    ensures forall c :: !IsQuoteOrSemicolon(c) ==> multiset(r)[c] == multiset(s)[c]
    ensures Subsequence(r, s)
  {
    KeepCount(s, NotQuoteOrSemicolon);
    KeepOrdered(s, NotQuoteOrSemicolon);
    Keep(s, NotQuoteOrSemicolon)
  }

  /** Replaces every maximal run of whitespace with one space. */
  function Collapse(s: string): (r: string)
    ensures |r| <= |s|
    ensures s != [] ==> r != [] && r[0] == if IsSpace(s[0]) then ' ' else s[0]
    decreases |s|
  {
    if s == [] then []
    else if IsSpace(s[0]) then [' '] + Collapse(TrimStart(s[1..]))
    else [s[0]] + Collapse(s[1..])
  }

  /** Every character of the collapsed text is a space or a character of the input. */
  lemma {:induction false} CollapseChars(s: string)
    ensures forall c :: c in Collapse(s) ==> c == ' ' || c in s
    decreases |s|
  {
    if s != [] {
      var t := if IsSpace(s[0]) then TrimStart(s[1..]) else s[1..];
      CollapseChars(t);
      assert s[1..][|s| - 1 - |t|..] == s[|s| - |t|..];
      SuffixMembers(s, t);
      assert Collapse(s) == [Collapse(s)[0]] + Collapse(t);
    }
  }

  /** The collapsed text holds no whitespace but single spaces: never two whitespace characters in a row. */
  lemma {:induction false} CollapseSpacing(s: string)
    ensures forall i :: 0 <= i < |Collapse(s)| && IsSpace(Collapse(s)[i]) ==> Collapse(s)[i] == ' '
    ensures forall i, j :: 0 <= i && j == i + 1 < |Collapse(s)| ==>
      !(IsSpace(Collapse(s)[i]) && IsSpace(Collapse(s)[j]))
    decreases |s|
  {
    if s != [] {
      var r := Collapse(s);
      var t := if IsSpace(s[0]) then TrimStart(s[1..]) else s[1..];
      var rest := Collapse(t);
      CollapseSpacing(t);
      assert r == [r[0]] + rest;
      assert IsSpace(s[0]) ==> rest == [] || !IsSpace(rest[0]);
      forall i | 0 <= i < |r| && IsSpace(r[i])
        ensures r[i] == ' '
      {
        if i > 0 {
          assert r[i] == rest[i - 1];
        }
      }
      forall i, j | 0 <= i && j == i + 1 < |r|
        ensures !(IsSpace(r[i]) && IsSpace(r[j]))
      {
        assert r[j] == rest[j - 1];
        if i > 0 {
          assert r[i] == rest[i - 1];
        }
      }
    }
  }

  /**
   * A reference definition of the same replacement as a left-to-right scan:
   * the first whitespace character of a run is written as a space, the rest
   * of the run (while `inRun`) is skipped, everything else is copied.
   */
  function CollapseScan(s: string, inRun: bool): string
    decreases |s|
  {
    if s == [] then []
    else if IsSpace(s[0]) then (if inRun then [] else [' ']) + CollapseScan(s[1..], true)
    else [s[0]] + CollapseScan(s[1..], false)
  }

  /** Inside a run, the scan skips exactly the whitespace that TrimStart drops. */
  lemma {:induction false} ScanSkipsRun(s: string)
    ensures CollapseScan(s, true) == CollapseScan(TrimStart(s), false)
    decreases |s|
  {
    if s != [] && IsSpace(s[0]) {
      ScanSkipsRun(s[1..]);
    }
  }

  /** Collapse agrees with the scanning reference on every input. */
  lemma {:induction false} CollapseIsScan(s: string)
    ensures Collapse(s) == CollapseScan(s, false)
    decreases |s|
  {
    if s != [] {
      if IsSpace(s[0]) {
        ScanSkipsRun(s[1..]);
        CollapseIsScan(TrimStart(s[1..]));
      } else {
        CollapseIsScan(s[1..]);
      }
    }
  }

  /** Collapsing keeps every non-whitespace character, in order. */
  lemma {:induction false} CollapseKeepsText(s: string)
    ensures Keep(Collapse(s), NotSpace) == Keep(s, NotSpace)
    decreases |s|
  {
    if s != [] {
      if IsSpace(s[0]) {
        var t := TrimStart(s[1..]);
        CollapseKeepsText(t);
        KeepConcat([' '], Collapse(t), NotSpace);
        var dropped := s[1..][..|s| - 1 - |t|];
        assert s[1..] == dropped + t;
        KeepNone(dropped, NotSpace);
        KeepConcat(dropped, t, NotSpace);
        assert s == [s[0]] + s[1..];
        KeepConcat([s[0]], s[1..], NotSpace);
      } else {
        CollapseKeepsText(s[1..]);
        KeepConcat([s[0]], Collapse(s[1..]), NotSpace);
        assert s == [s[0]] + s[1..];
        KeepConcat([s[0]], s[1..], NotSpace);
      }
    }
  }

  predicate NotSpace(c: char) {
    !IsSpace(c)
  }

  /** A string without whitespace is unchanged by collapsing. */
  lemma {:induction false} CollapseNoSpace(s: string)
    requires forall i :: 0 <= i < |s| ==> !IsSpace(s[i])
    ensures Collapse(s) == s
    decreases |s|
  {
    if s != [] {
      CollapseNoSpace(s[1..]);
    }
  }

  /** The first three steps of sanitizeString: strip control characters, trim, drop quotes. */
  function Scrub(text: string): (u: string)
    ensures forall c :: c in u ==> !IsControl(c) && !IsQuoteOrSemicolon(c)
  {
    var trimmed := Trim(StripControl(text));
    DropQuotes(trimmed)
  }

  /** The steps of sanitizeString before the length cap: scrub, then collapse whitespace. */
  function Clean(text: string): (v: string)
    ensures forall i :: 0 <= i < |v| ==> !IsControl(v[i]) && !IsQuoteOrSemicolon(v[i])
    ensures forall i :: 0 <= i < |v| && IsSpace(v[i]) ==> v[i] == ' '
    ensures forall i, j :: 0 <= i && j == i + 1 < |v| ==> !(IsSpace(v[i]) && IsSpace(v[j]))
  {
    var u := Scrub(text);
    CollapseChars(u);
    CollapseSpacing(u);
    assert !IsControl(' ') && !IsQuoteOrSemicolon(' ');
    Collapse(u)
  }

  /** Neither a quote, a semicolon nor whitespace. */
  predicate IsKeptText(c: char) {
    !IsQuoteOrSemicolon(c) && !IsSpace(c)
  }

  /**
   * Cleaning keeps the plain characters of the input exactly, in order, and
   * turns each whitespace run of the scrubbed text into one space.
   */
  lemma CleanKeepsText(t: string)
    ensures Keep(Clean(t), NotSpace) == Keep(t, IsPlain)
    ensures Clean(t) == CollapseScan(Scrub(t), false)
  {
    var u := Scrub(t);
    CollapseIsScan(u);
    CollapseKeepsText(u);
    ScrubKeepsText(t);
  }

  /** Scrubbing keeps the plain characters of the input exactly, in order. */
  lemma ScrubKeepsText(t: string)
    ensures Keep(Scrub(t), NotSpace) == Keep(t, IsPlain)
  {
    var x := StripControl(t);
    var y := Trim(x);
    KeepBoth(y, NotQuoteOrSemicolon, NotSpace, IsKeptText);
    TrimKeeps(x, IsKeptText);
    KeepBoth(t, NotControl, IsKeptText, IsPlain);
  }

  /** A prefix of a cleaned text keeps the cleaned shape. */
  lemma CleanPrefix(v: string, n: nat)
    requires n <= |v|
    requires forall i :: 0 <= i < |v| ==> !IsControl(v[i]) && !IsQuoteOrSemicolon(v[i])
    requires forall i :: 0 <= i < |v| && IsSpace(v[i]) ==> v[i] == ' '
    requires forall i, j :: 0 <= i && j == i + 1 < |v| ==> !(IsSpace(v[i]) && IsSpace(v[j]))
    ensures forall i :: 0 <= i < n ==> !IsControl(v[..n][i]) && !IsQuoteOrSemicolon(v[..n][i])
    ensures forall i :: 0 <= i < n && IsSpace(v[..n][i]) ==> v[..n][i] == ' '
    ensures forall i, j :: 0 <= i && j == i + 1 < n ==> !(IsSpace(v[..n][i]) && IsSpace(v[..n][j]))
  {
  }

  /**
   * `sanitizeString(s, maxLen)`: "" for null or undefined; otherwise control
   * characters are removed, the text is trimmed, quotes and semicolons are
   * removed, whitespace runs are collapsed and the result is cut to `maxLen`
   * (200 unless the caller gives another cap).
   */
  function SanitizeString(s: Option<string>, maxLen: nat): (r: string)
    ensures s.None? ==> r == ""
    ensures |r| <= maxLen
    ensures forall i :: 0 <= i < |r| ==> !IsControl(r[i]) && !IsQuoteOrSemicolon(r[i])
    ensures forall i :: 0 <= i < |r| && IsSpace(r[i]) ==> r[i] == ' '
    ensures forall i, j :: 0 <= i && j == i + 1 < |r| ==> !(IsSpace(r[i]) && IsSpace(r[j]))
  {
    match s
    case None => ""
    case Some(text) =>
      var v := Clean(text);
      if |v| > maxLen then CleanPrefix(v, maxLen); v[..maxLen] else v
  }

  /**
   * The non-whitespace text of the result is the start of the input's plain
   * characters, and all of them when the cleaned text fits the cap.
   */
  lemma SanitizeStringKeepsText(t: string, maxLen: nat)
    ensures SanitizeString(Some(t), maxLen) == if |Clean(t)| <= maxLen then Clean(t) else Clean(t)[..maxLen]
    ensures Keep(SanitizeString(Some(t), maxLen), NotSpace) <= Keep(t, IsPlain)
    ensures |Clean(t)| <= maxLen ==> Keep(SanitizeString(Some(t), maxLen), NotSpace) == Keep(t, IsPlain)
  {
    var v := Clean(t);
    CleanKeepsText(t);
    if |v| > maxLen {
      KeepPrefix(v, maxLen, NotSpace);
      assert SanitizeString(Some(t), maxLen) == v[..maxLen];
    } else {
      assert SanitizeString(Some(t), maxLen) == v;
    }
  }

  /** Text made only of plain characters and within the cap passes through unchanged. */
  lemma SanitizeStringKeepsPlain(t: string, maxLen: nat)
    requires |t| <= maxLen
    requires forall i :: 0 <= i < |t| ==> IsPlain(t[i])
    ensures SanitizeString(Some(t), maxLen) == t
  {
    KeepAll(t, NotControl);
    KeepAll(t, NotQuoteOrSemicolon);
    CollapseNoSpace(t);
  }

  /** Lower-case ASCII letters, digits, dot, underscore and hyphen. */
  predicate IsUsernameChar(c: char) {
    'a' <= c <= 'z' || '0' <= c <= '9' || c == '.' || c == '_' || c == '-'
  }

  /** Lower-case ASCII letters, digits, `@`, dot, underscore, plus and hyphen. */
  predicate IsEmailChar(c: char) {
    'a' <= c <= 'z' || '0' <= c <= '9' || c == '@' || c == '.' || c == '_' || c == '+' || c == '-'
  }

  /** sanitizeUsername: sanitized (cap 30 unless given), lower-cased, then only user-name characters kept. */
  function SanitizeUsername(s: Option<string>, maxLen: nat): (r: string)
    ensures |r| <= maxLen
    ensures forall i :: 0 <= i < |r| ==> IsUsernameChar(r[i])
  {
    Keep(Lower(SanitizeString(s, maxLen)), IsUsernameChar)
  }

  /**
   * Lower-casing and then keeping only `p` ignores every character `q` rejects,
   * when no such character lower-cases to one `p` accepts.
   */
  lemma {:induction false} KeepLower(x: string, q: char -> bool, p: char -> bool)
    requires forall c :: !q(c) ==> !p(LowerChar(c))
    ensures Keep(Lower(Keep(x, q)), p) == Keep(Lower(x), p)
  {
    if x != [] {
      KeepLower(x[1..], q, p);
      assert Lower(x)[0] == LowerChar(x[0]) && Lower(x)[1..] == Lower(x[1..]);
      if q(x[0]) {
        var k := Keep(x, q);
        assert k == [x[0]] + Keep(x[1..], q);
        assert Lower(k)[0] == LowerChar(x[0]) && Lower(k)[1..] == Lower(Keep(x[1..], q));
      }
    }
  }

  /** Lower-casing leaves a character that is not plain unchanged. */
  lemma LowerKeepsPlain(c: char)
    ensures !IsPlain(c) ==> LowerChar(c) == c
  {
  }

  /** No character the sanitizer removes lower-cases to a user-name character. */
  lemma UsernameDropsNonPlain()
    ensures forall c :: !IsPlain(c) ==> !IsUsernameChar(LowerChar(c))
  {
    forall c | !IsPlain(c) ensures !IsUsernameChar(LowerChar(c)) {
      LowerKeepsPlain(c);
    }
  }

  /** No character the sanitizer removes lower-cases to an e-mail character. */
  lemma EmailDropsNonPlain()
    ensures forall c :: !IsPlain(c) ==> !IsEmailChar(LowerChar(c))
  {
    forall c | !IsPlain(c) ensures !IsEmailChar(LowerChar(c)) {
      LowerKeepsPlain(c);
    }
  }

  /**
   * A user name that fits the cap keeps exactly the user-name characters of the
   * lower-cased input: trimming, collapsing and the removal of control
   * characters, quotes and semicolons only touch characters the whitelist drops.
   */
  lemma SanitizeUsernameContent(t: string, maxLen: nat)
    ensures |Clean(t)| <= maxLen ==> SanitizeUsername(Some(t), maxLen) == Keep(Lower(t), IsUsernameChar)
  {
    var v := Clean(t);
    UsernameDropsNonPlain();
    assert Keep(Lower(v), IsUsernameChar) == Keep(Lower(Keep(t, IsPlain)), IsUsernameChar) by {
      CleanKeepsText(t);
      KeepLower(v, NotSpace, IsUsernameChar);
    }
    KeepLower(t, IsPlain, IsUsernameChar);
    SanitizeStringKeepsText(t, maxLen);
  }

  lemma UsernameCharIsPlain(c: char)
    requires IsUsernameChar(c)
    ensures IsPlain(c) && !('A' <= c <= 'Z')
  {
  }

  lemma EmailCharIsPlain(c: char)
    requires IsEmailChar(c)
    ensures IsPlain(c) && !('A' <= c <= 'Z')
  {
  }

  /** Sanitizing a sanitized user name changes nothing. */
  lemma SanitizeUsernameIdempotent(s: Option<string>, maxLen: nat)
    ensures SanitizeUsername(Some(SanitizeUsername(s, maxLen)), maxLen) == SanitizeUsername(s, maxLen)
  {
    var u := SanitizeUsername(s, maxLen);
    assert forall i :: 0 <= i < |u| ==> IsPlain(u[i]) && !('A' <= u[i] <= 'Z') by {
      forall i | 0 <= i < |u| ensures IsPlain(u[i]) && !('A' <= u[i] <= 'Z') {
        UsernameCharIsPlain(u[i]);
      }
    }
    SanitizeStringKeepsPlain(u, maxLen);
    assert SanitizeString(Some(u), maxLen) == u;
    LowerOfLower(u);
    assert forall x :: x in u ==> IsUsernameChar(x);
    KeepAll(u, IsUsernameChar);
  }

  /** sanitizeEmail: sanitized (cap 120 unless given), lower-cased, then only e-mail characters kept. */
  function SanitizeEmail(s: Option<string>, maxLen: nat): (r: string)
    ensures |r| <= maxLen
    ensures forall i :: 0 <= i < |r| ==> IsEmailChar(r[i])
  {
    Keep(Lower(SanitizeString(s, maxLen)), IsEmailChar)
  }

  /** The e-mail twin of `SanitizeUsernameContent`, for the e-mail whitelist. */
  lemma SanitizeEmailContent(t: string, maxLen: nat)
    ensures |Clean(t)| <= maxLen ==> SanitizeEmail(Some(t), maxLen) == Keep(Lower(t), IsEmailChar)
  {
    var v := Clean(t);
    EmailDropsNonPlain();
    assert Keep(Lower(v), IsEmailChar) == Keep(Lower(Keep(t, IsPlain)), IsEmailChar) by {
      CleanKeepsText(t);
      KeepLower(v, NotSpace, IsEmailChar);
    }
    KeepLower(t, IsPlain, IsEmailChar);
    SanitizeStringKeepsText(t, maxLen);
  }

  /** Sanitizing a sanitized e-mail address changes nothing. */
  lemma SanitizeEmailIdempotent(s: Option<string>, maxLen: nat)
    ensures SanitizeEmail(Some(SanitizeEmail(s, maxLen)), maxLen) == SanitizeEmail(s, maxLen)
  {
    var e := SanitizeEmail(s, maxLen);
    assert forall i :: 0 <= i < |e| ==> IsPlain(e[i]) && !('A' <= e[i] <= 'Z') by {
      forall i | 0 <= i < |e| ensures IsPlain(e[i]) && !('A' <= e[i] <= 'Z') {
        EmailCharIsPlain(e[i]);
      }
    }
    SanitizeStringKeepsPlain(e, maxLen);
    assert SanitizeString(Some(e), maxLen) == e;
    LowerOfLower(e);
    assert forall x :: x in e ==> IsEmailChar(x);
    KeepAll(e, IsEmailChar);
  }

  /** The text starts with `http://` or `https://` in any letter case. */
  predicate HasHttpScheme(v: string) {
    StartsWithIgnoringCase(v, "http://") || StartsWithIgnoringCase(v, "https://")
  }

  /** sanitizeUrl: the sanitized text (cap 500 unless given) when it is an http(s) link, otherwise "". */
  function SanitizeUrl(s: Option<string>, maxLen: nat): (r: string)
    ensures r == "" || r == SanitizeString(s, maxLen)
    ensures r != "" <==> HasHttpScheme(SanitizeString(s, maxLen))
  {
    var v := SanitizeString(s, maxLen);
    if HasHttpScheme(v) then v else ""
  }

  /** A plain http(s) link within the cap is returned exactly as given. */
  lemma SanitizeUrlKeepsPlainLinks(t: string, maxLen: nat)
    requires |t| <= maxLen && HasHttpScheme(t)
    requires forall i :: 0 <= i < |t| ==> IsPlain(t[i])
    ensures SanitizeUrl(Some(t), maxLen) == t
  {
    SanitizeStringKeepsPlain(t, maxLen);
  }

  /** isGmail: the address, or "" when there is none, ends with `@gmail.com` in any letter case. */
  function IsGmail(email: Option<string>): (r: bool)
    ensures var e := OrEmpty(email);
      r <==> |e| >= 10 && Lower(e[|e| - 10..]) == "@gmail.com"
  {
    var e := OrEmpty(email);
    LowerOfLower("@gmail.com");
    if |e| >= 10 then EqualIgnoringCaseLower(e[|e| - 10..], "@gmail.com"); EndsWithIgnoringCase(e, "@gmail.com")
    else false
  }
}
