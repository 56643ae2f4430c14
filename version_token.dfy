/**
 * The version-token scan of an application image: the leftmost match of the
 * regular expression `\x00(v\d+(?:\.\d+)*[\w-]*)\x00` over the image body,
 * and the text of its capture group.
 *
 * The body is scanned as raw bytes. Every byte the expression can match is
 * ASCII, and UTF-8 decoding keeps ASCII bytes as they are, so a scan of the
 * bytes finds the same token as a scan of the decoded text.
 */
module VersionToken {
  import opened DfuTypes

  const NUL: byte := 0x00
  const LowerV: byte := 0x76
  const Dot: byte := 0x2E
  const Hyphen: byte := 0x2D
  const Underscore: byte := 0x5F

  /** `\d`: an ASCII digit. */
  predicate IsDigit(b: byte) {
    0x30 <= b <= 0x39
  }

  /** `[\w-]`: an ASCII letter, digit, underscore or hyphen. */
  predicate IsWordOrHyphen(b: byte) {
    IsDigit(b) || 0x41 <= b <= 0x5A || 0x61 <= b <= 0x7A || b == Underscore || b == Hyphen
  }

  predicate AllDigits(s: seq<byte>) {
    forall k :: 0 <= k < |s| ==> IsDigit(s[k])
  }

  predicate AllWordOrHyphen(s: seq<byte>) {
    forall k :: 0 <= k < |s| ==> IsWordOrHyphen(s[k])
  }

  // ---------------------------------------------------------------------------
  // The pattern, stated by its parts
  // ---------------------------------------------------------------------------

  /** `(?:\.\d+)*`: zero or more groups, each a dot and one or more digits. */
  ghost predicate IsDottedGroups(t: seq<byte>)
    decreases |t|, 1
  {
    t == [] || exists k :: FirstGroupEndsAt(t, k)
  }

  /** The first group of `t` is `t[..k]` and the rest of `t` is more groups. */
  ghost predicate FirstGroupEndsAt(t: seq<byte>, k: int)
    decreases |t|, 0
  {
    2 <= k <= |t| && t[0] == Dot && AllDigits(t[1..k]) && IsDottedGroups(t[k..])
  }

  /**
   * `s` is `v`, then the digits `s[1..i]`, then the dotted groups `s[i..j]`,
   * then the word-or-hyphen run `s[j..]`.
   */
  ghost predicate PatternSplitsAt(s: seq<byte>, i: int, j: int) {
    2 <= i <= j <= |s| && s[0] == LowerV && AllDigits(s[1..i])
    && IsDottedGroups(s[i..j]) && AllWordOrHyphen(s[j..])
  }

  /** `s` is matched by `v\d+(?:\.\d+)*[\w-]*` as a whole. */
  ghost predicate MatchesPattern(s: seq<byte>) {
    exists i, j :: PatternSplitsAt(s, i, j)
  }

  /** `\x00(v\d+(?:\.\d+)*[\w-]*)\x00` matches `body[start..end]`. */
  ghost predicate RegexMatch(body: seq<byte>, start: int, end: int) {
    0 <= start && start + 2 <= end <= |body|
    && body[start] == NUL && body[end - 1] == NUL
    && MatchesPattern(body[start + 1..end - 1])
  }

  /** The match at `body[start..end]` is the one a left-to-right regex search reports. */
  ghost predicate LeftmostMatch(body: seq<byte>, start: int, end: int) {
    RegexMatch(body, start, end)
    && forall s', e' :: 0 <= s' < start ==> !RegexMatch(body, s', e')
  }

  // ---------------------------------------------------------------------------
  // The recogniser and the scanner
  // ---------------------------------------------------------------------------

  /** Length of the longest run of digits at the front of `s`. */
  function DigitRun(s: seq<byte>): (n: nat)
    ensures n <= |s| && AllDigits(s[..n])
    ensures n < |s| ==> !IsDigit(s[n])
  {
    if s == [] || !IsDigit(s[0]) then 0 else 1 + DigitRun(s[1..])
  }

  /** Recognises `(?:\.\d+)*[\w-]*`, taking each digit group as long as it goes. */
  function GroupsThenSuffix(t: seq<byte>): (r: bool)
    ensures r && t != [] && t[0] == Dot ==> |t| >= 2 && IsDigit(t[1])
    decreases |t|
  {
    if t == [] then true
    else if t[0] == Dot then
      var n := DigitRun(t[1..]);
      n > 0 && GroupsThenSuffix(t[1 + n..])
    else AllWordOrHyphen(t)
  }

  /** Recognises `v\d+(?:\.\d+)*[\w-]*`, left to right without backtracking. */
  function IsVersionToken(s: seq<byte>): (r: bool)
    ensures r ==> |s| >= 2 && s[0] == LowerV && IsDigit(s[1])
  {
    |s| > 0 && s[0] == LowerV &&
    var n := DigitRun(s[1..]);
    n > 0 && GroupsThenSuffix(s[1 + n..])
  }

  /** Index of the first NUL byte at or after `from`, or `|body|` when there is none. */
  function NextNul(body: seq<byte>, from: nat): (i: nat)
    requires from <= |body|
    ensures from <= i <= |body|
    ensures i < |body| ==> body[i] == NUL
    ensures forall k :: from <= k < i ==> body[k] != NUL
    decreases |body| - from
  {
    if from == |body| || body[from] == NUL then from else NextNul(body, from + 1)
  }

  /**
   * Tries each NUL byte at or after `from` as the opening delimiter; the
   * candidate token runs from there to the next NUL byte.
   */
  function ScanFrom(body: seq<byte>, from: nat): (r: Option<seq<byte>>)
    requires from <= |body|
    decreases |body| - from
  {
    var open := NextNul(body, from);
    if open == |body| then None
    else
      var close := NextNul(body, open + 1);
      if close == |body| then None
      else if IsVersionToken(body[open + 1..close]) then Some(body[open + 1..close])
      else ScanFrom(body, close)
  }

  /** The captured version token of the leftmost match in `body`, if any. */
  function FindVersionToken(body: seq<byte>): (r: Option<seq<byte>>)
    ensures r.Some? ==> IsVersionToken(r.value) && NUL !in r.value
  {
    FoundTokenIsRecognised(body, 0);
    ScanFrom(body, 0)
  }

  /** The token as text: each byte is an ASCII character. */
  function AsciiText(token: seq<byte>): string {
    seq(|token|, k requires 0 <= k < |token| => token[k] as char)
  }

  /** What the suffix recogniser accepts holds only dots and `[\w-]` bytes. */
  lemma {:induction false} GroupsThenSuffixBytes(t: seq<byte>)
    requires GroupsThenSuffix(t)
    ensures forall k :: 0 <= k < |t| ==> t[k] == Dot || IsWordOrHyphen(t[k])
    decreases |t|
  {
    if t != [] && t[0] == Dot {
      var n := DigitRun(t[1..]);
      GroupsThenSuffixBytes(t[1 + n..]);
      forall k | 0 <= k < |t| ensures t[k] == Dot || IsWordOrHyphen(t[k]) {
        if 1 <= k < 1 + n {
          assert t[k] == t[1..][..n][k - 1];
        } else if k >= 1 + n {
          assert t[k] == t[1 + n..][k - 1 - n];
        }
      }
    }
  }

  /**
   * Every byte of a version token is ASCII, and so is every character of its
   * text: decoding the body as UTF-8 leaves the token's bytes as they are.
   */
  lemma VersionTokenIsAscii(s: seq<byte>)
    requires IsVersionToken(s)
    ensures forall k :: 0 <= k < |s| ==> s[k] < 0x80 && AsciiText(s)[k] < 0x80 as char
  {
    var n := DigitRun(s[1..]);
    GroupsThenSuffixBytes(s[1 + n..]);
    forall k | 1 <= k < |s| ensures s[k] < 0x80 {
      if k < 1 + n {
        assert s[k] == s[1..][..n][k - 1];
      } else {
        assert s[k] == s[1 + n..][k - 1 - n];
      }
    }
  }

  // ---------------------------------------------------------------------------
  // The recogniser decides the pattern
  // ---------------------------------------------------------------------------

  /** Dotted groups hold only digits and dots. */
  lemma {:induction false} DottedGroupsBytes(t: seq<byte>)
    requires IsDottedGroups(t)
    ensures forall k :: 0 <= k < |t| ==> IsDigit(t[k]) || t[k] == Dot
    decreases |t|
  {
    if t != [] {
      var k :| FirstGroupEndsAt(t, k);
      DottedGroupsBytes(t[k..]);
      forall m | 0 <= m < |t| ensures IsDigit(t[m]) || t[m] == Dot {
        if m >= k {
          assert t[m] == t[k..][m - k];
        } else if m > 0 {
          assert t[m] == t[1..k][m - 1];
        }
      }
    }
  }

  /** Non-empty dotted groups start with a dot. */
  lemma DottedGroupsStartWithDot(t: seq<byte>)
    requires IsDottedGroups(t) && t != []
    ensures t[0] == Dot
  {
    var k :| FirstGroupEndsAt(t, k);
  }

  /** A word-or-hyphen run is accepted as the suffix. */
  lemma WordRunAccepted(t: seq<byte>)
    requires AllWordOrHyphen(t)
    ensures GroupsThenSuffix(t)
  {
    if t != [] {
      assert IsWordOrHyphen(t[0]);
    }
  }

  /** What the greedy suffix recogniser accepts splits into groups and a word run. */
  lemma {:induction false} GroupsThenSuffixSound(t: seq<byte>) returns (e: nat)
    requires GroupsThenSuffix(t)
    ensures e <= |t| && IsDottedGroups(t[..e]) && AllWordOrHyphen(t[e..])
    decreases |t|
  {
    if t == [] {
      e := 0;
    } else if t[0] == Dot {
      var n := DigitRun(t[1..]);
      var rest := t[1 + n..];
      var e' := GroupsThenSuffixSound(rest);
      e := 1 + n + e';
      var g := t[..e];
      assert g[1..1 + n] == t[1..][..n];
      assert g[1 + n..] == rest[..e'];
      assert FirstGroupEndsAt(g, 1 + n);
      assert t[e..] == rest[e'..];
    } else {
      e := 0;
      assert t[0..] == t;
    }
  }

  /** Groups followed by a word run are accepted by the greedy suffix recogniser. */
  lemma {:induction false} GroupsThenSuffixComplete(t: seq<byte>, e: nat)
    requires e <= |t| && IsDottedGroups(t[..e]) && AllWordOrHyphen(t[e..])
    ensures GroupsThenSuffix(t)
    decreases |t|
  {
    if e == 0 {
      assert t[0..] == t;
      WordRunAccepted(t);
    } else {
      var g := t[..e];
      var k :| FirstGroupEndsAt(g, k);
      assert t[0] == Dot;
      var n := DigitRun(t[1..]);
      assert AllDigits(t[1..][..k - 1]) by {
        assert t[1..][..k - 1] == g[1..k];
      }
      assert n >= k - 1;
      if n == k - 1 {
        var rest := t[k..];
        assert rest[..e - k] == g[k..];
        assert rest[e - k..] == t[e..];
        GroupsThenSuffixComplete(rest, e - k);
      } else {
        // The digit run reaches past the group, so no further group follows it.
        assert g[k..] == [] by {
          if g[k..] != [] {
            assert t[1..][..n][k - 1] == t[k] == g[k..][0];
            DottedGroupsStartWithDot(g[k..]);
          }
        }
        assert e == k;
        var rest := t[1 + n..];
        forall m | 0 <= m < |rest| ensures IsWordOrHyphen(rest[m]) {
          assert rest[m] == t[e..][m + 1 + n - e];
        }
        WordRunAccepted(rest);
      }
    }
  }

  /** What the recogniser accepts, the pattern matches. */
  lemma RecognisedTokenMatchesPattern(s: seq<byte>)
    requires IsVersionToken(s)
    ensures MatchesPattern(s)
  {
    {
      var n := DigitRun(s[1..]);
      var rest := s[1 + n..];
      var e := GroupsThenSuffixSound(rest);
      assert s[1..1 + n] == s[1..][..n];
      assert s[1 + n..1 + n + e] == rest[..e];
      assert s[1 + n + e..] == rest[e..];
      assert PatternSplitsAt(s, 1 + n, 1 + n + e);
    }
  }

  /** What the pattern matches, the recogniser accepts. */
  lemma PatternMatchIsRecognised(s: seq<byte>)
    requires MatchesPattern(s)
    ensures IsVersionToken(s)
  {
    var i, j :| PatternSplitsAt(s, i, j);
    var n := DigitRun(s[1..]);
    assert n >= i - 1 by {
      assert forall m :: 0 <= m < i - 1 ==> s[1..][m] == s[1..i][m];
    }
    if n == i - 1 {
      var rest := s[i..];
      assert rest[..j - i] == s[i..j];
      assert rest[j - i..] == s[j..];
      GroupsThenSuffixComplete(rest, j - i);
      assert s[1 + n..] == rest;
    } else {
      LongerRunEndsGroups(s, i, j, n);
    }
  }

  /**
   * When the digits after `v` run on past the split point `i`, the dotted
   * groups are empty and everything after the digit run is the word run.
   */
  lemma LongerRunEndsGroups(s: seq<byte>, i: int, j: int, n: nat)
    requires PatternSplitsAt(s, i, j) && n == DigitRun(s[1..]) && n > i - 1
    ensures GroupsThenSuffix(s[1 + n..])
  {
    assert s[i..j] == [] by {
      if s[i..j] != [] {
        assert s[1..][..n][i - 1] == s[i] == s[i..j][0];
        DottedGroupsStartWithDot(s[i..j]);
      }
    }
    var tail := s[1 + n..];
    forall m | 0 <= m < |tail| ensures IsWordOrHyphen(tail[m]) {
      assert tail[m] == s[j..][m + 1 + n - j];
    }
    WordRunAccepted(tail);
  }

  /** The recogniser accepts exactly the strings the pattern matches as a whole. */
  lemma VersionTokenMatchesPattern(s: seq<byte>)
    ensures IsVersionToken(s) <==> MatchesPattern(s)
  {
    if IsVersionToken(s) {
      RecognisedTokenMatchesPattern(s);
    }
    if MatchesPattern(s) {
      PatternMatchIsRecognised(s);
    }
  }

  /** A token the pattern matches contains no NUL byte. */
  lemma PatternHasNoNul(s: seq<byte>)
    requires MatchesPattern(s)
    ensures NUL !in s
  {
    var i, j :| PatternSplitsAt(s, i, j);
    DottedGroupsBytes(s[i..j]);
    forall m | 0 <= m < |s| ensures s[m] != NUL {
      if 1 <= m < i {
        assert s[m] == s[1..i][m - 1];
      } else if i <= m < j {
        assert s[m] == s[i..j][m - i];
      } else if j <= m {
        assert s[m] == s[j..][m - j];
      }
    }
  }

  // ---------------------------------------------------------------------------
  // The scanner finds the leftmost match
  // ---------------------------------------------------------------------------

  /** A match opening at `start` closes at the first NUL byte after `start`. */
  lemma MatchClosesAtNextNul(body: seq<byte>, start: int, end: int)
    requires RegexMatch(body, start, end)
    ensures end - 1 == NextNul(body, start + 1)
  {
    var token := body[start + 1..end - 1];
    PatternHasNoNul(token);
  }

  /** What `ScanFrom` returns passes the recogniser and holds no NUL byte. */
  lemma {:induction false} FoundTokenIsRecognised(body: seq<byte>, from: nat)
    requires from <= |body|
    ensures ScanFrom(body, from).Some? ==>
      IsVersionToken(ScanFrom(body, from).value) && NUL !in ScanFrom(body, from).value
    decreases |body| - from
  {
    var open := NextNul(body, from);
    if open < |body| {
      var close := NextNul(body, open + 1);
      if close < |body| {
        if IsVersionToken(body[open + 1..close]) {
          var token := body[open + 1..close];
          forall k | 0 <= k < |token| ensures token[k] != NUL {
            assert token[k] == body[open + 1 + k];
          }
        } else {
          FoundTokenIsRecognised(body, close);
        }
      }
    }
  }

  /** No match opens in `body[lo..hi]`. */
  ghost predicate NoMatchIn(body: seq<byte>, lo: int, hi: int) {
    forall s', e' :: lo <= s' < hi ==> !RegexMatch(body, s', e')
  }

  /** No match opens at a byte that is not NUL. */
  lemma NoMatchWithoutNul(body: seq<byte>, lo: int, hi: int)
    requires 0 <= lo <= hi <= |body|
    requires forall k :: lo <= k < hi ==> body[k] != NUL
    ensures NoMatchIn(body, lo, hi)
  {
  }

  /** Two adjacent stretches without a match make one. */
  lemma NoMatchJoin(body: seq<byte>, lo: int, mid: int, hi: int)
    requires lo <= mid <= hi && NoMatchIn(body, lo, mid) && NoMatchIn(body, mid, hi)
    ensures NoMatchIn(body, lo, hi)
  {
  }

  /**
   * With `open` a NUL byte and `close` the next one, a match opening at
   * `open` exists exactly when the bytes between them are a version token,
   * and it then ends just after `close`.
   */
  lemma MatchAtOpening(body: seq<byte>, open: nat, close: nat)
    requires open < close < |body| && body[open] == NUL
    requires close == NextNul(body, open + 1)
    ensures forall e' :: RegexMatch(body, open, e') ==> e' == close + 1
    ensures RegexMatch(body, open, close + 1) <==> IsVersionToken(body[open + 1..close])
  {
    forall e' | RegexMatch(body, open, e') ensures e' == close + 1 {
      MatchClosesAtNextNul(body, open, e');
    }
    VersionTokenMatchesPattern(body[open + 1..close]);
  }

  /** No match opens at a NUL byte that has no NUL byte after it. */
  lemma NoMatchAtLastNul(body: seq<byte>, open: nat)
    requires open < |body| && NextNul(body, open + 1) == |body|
    ensures NoMatchIn(body, open, |body|)
  {
    forall e' ensures !RegexMatch(body, open, e') {
      if RegexMatch(body, open, e') {
        MatchClosesAtNextNul(body, open, e');
      }
    }
    NoMatchWithoutNul(body, open + 1, |body|);
  }

  /**
   * `ScanFrom(body, from)` finds the leftmost match opening at or after
   * `from`, and finds nothing exactly when there is none.
   */
  lemma {:induction false} ScanFromFindsLeftmost(body: seq<byte>, from: nat)
    requires from <= |body|
    ensures ScanFrom(body, from).None? <==> NoMatchIn(body, from, |body|)
    ensures ScanFrom(body, from).Some? ==>
      exists start, end ::
        && from <= start && RegexMatch(body, start, end)
        && ScanFrom(body, from).value == body[start + 1..end - 1]
        && NoMatchIn(body, from, start)
    decreases |body| - from
  {
    var open := NextNul(body, from);
    NoMatchWithoutNul(body, from, open);
    if open == |body| {
      return;
    }
    var close := NextNul(body, open + 1);
    if close == |body| {
      NoMatchAtLastNul(body, open);
      NoMatchJoin(body, from, open, |body|);
      return;
    }
    MatchAtOpening(body, open, close);
    if IsVersionToken(body[open + 1..close]) {
      assert ScanFrom(body, from) == Some(body[open + 1..close]);
      assert RegexMatch(body, open, close + 1);
    } else {
      assert ScanFrom(body, from) == ScanFrom(body, close);
      assert NoMatchIn(body, open, open + 1);
      NoMatchWithoutNul(body, open + 1, close);
      NoMatchJoin(body, from, open, open + 1);
      NoMatchJoin(body, from, open + 1, close);
      ScanFromFindsLeftmost(body, close);
      if ScanFrom(body, close).Some? {
        var start, end :|
          && close <= start && RegexMatch(body, start, end)
          && ScanFrom(body, close).value == body[start + 1..end - 1]
          && NoMatchIn(body, close, start);
        NoMatchJoin(body, from, close, start);
      } else {
        NoMatchJoin(body, from, close, |body|);
      }
    }
  }

  /**
   * The version token of `body` is the capture group of the leftmost regex
   * match; there is none exactly when the expression matches nowhere.
   */
  lemma FindVersionTokenIsLeftmostMatch(body: seq<byte>)
    ensures FindVersionToken(body).None? <==>
      forall start, end :: !RegexMatch(body, start, end)
    ensures FindVersionToken(body).Some? ==>
      exists start, end ::
        LeftmostMatch(body, start, end) && FindVersionToken(body).value == body[start + 1..end - 1]
  {
    ScanFromFindsLeftmost(body, 0);
    if ScanFrom(body, 0).Some? {
      var start, end :|
        && 0 <= start && RegexMatch(body, start, end)
        && ScanFrom(body, 0).value == body[start + 1..end - 1]
        && NoMatchIn(body, 0, start);
      assert LeftmostMatch(body, start, end);
    }
  }

  /** The token found is the whole segment between two NUL bytes of `body`. */
  lemma FoundTokenIsNulDelimited(body: seq<byte>)
    requires FindVersionToken(body).Some?
    ensures var token := FindVersionToken(body).value;
      NUL !in token &&
      exists start :: 0 <= start && start + |token| + 1 < |body|
        && body[start] == NUL && body[start + 1..start + 1 + |token|] == token
        && body[start + 1 + |token|] == NUL
  {
    FindVersionTokenIsLeftmostMatch(body);
    var token := FindVersionToken(body).value;
    var start, end :| LeftmostMatch(body, start, end) && token == body[start + 1..end - 1];
    assert start + 1 + |token| == end - 1;
    assert 0 <= start && start + |token| + 1 < |body|
      && body[start] == NUL && body[start + 1..start + 1 + |token|] == token
      && body[start + 1 + |token|] == NUL;
  }

  // ---------------------------------------------------------------------------
  // Examples
  // ---------------------------------------------------------------------------

  /** The bytes of `v2.1.0-beta`, grouped as the recogniser reads them. */
  const BetaToken: seq<byte> := [LowerV, 0x32] + ([Dot, 0x31] + ([Dot, 0x30] + [Hyphen, 0x62, 0x65, 0x74, 0x61]))

  /** The bytes of `v2.1.0-beta` read as text. */
  lemma BetaTokenText()
    ensures AsciiText(BetaToken) == "v2.1.0-beta"
  {
  }

  /** A one-digit dotted group in front of an accepted tail that does not start with a digit. */
  lemma OneDigitGroup(d: byte, t: seq<byte>)
    requires IsDigit(d) && GroupsThenSuffix(t) && (t == [] || !IsDigit(t[0]))
    ensures GroupsThenSuffix([Dot, d] + t)
  {
    var g := [Dot, d] + t;
    assert g[1..] == [d] + t && g[2..] == t;
    assert ([d] + t)[1..] == t;
  }

  /** `v` and one digit in front of an accepted tail that does not start with a digit. */
  lemma OneDigitVersion(d: byte, t: seq<byte>)
    requires IsDigit(d) && GroupsThenSuffix(t) && (t == [] || !IsDigit(t[0]))
    ensures IsVersionToken([LowerV, d] + t)
  {
    var s := [LowerV, d] + t;
    assert s[1..] == [d] + t && s[2..] == t;
    assert ([d] + t)[1..] == t;
  }

  /** `v2.1.0-beta` is a version token. */
  lemma BetaTokenIsRecognised()
    ensures IsVersionToken(BetaToken)
  {
    var suffix: seq<byte> := [Hyphen, 0x62, 0x65, 0x74, 0x61];
    WordRunAccepted(suffix);
    OneDigitGroup(0x30, suffix);
    OneDigitGroup(0x31, [Dot, 0x30] + suffix);
    OneDigitVersion(0x32, [Dot, 0x31] + ([Dot, 0x30] + suffix));
  }

  /** `...\x00v2.1.0-beta\x00...` yields `v2.1.0-beta`. */
  lemma BetaTokenExample()
    ensures FindVersionToken([0x46, 0x57, 0x00] + BetaToken + [0x00, 0x01]) == Some(BetaToken)
  {
    var body := [0x46, 0x57, 0x00] + BetaToken + [0x00, 0x01];
    assert body[0] != NUL && body[1] != NUL && body[2] == NUL;
    assert NextNul(body, 0) == 2;
    assert forall k :: 3 <= k < 14 ==> body[k] == BetaToken[k - 3] != NUL;
    assert body[14] == NUL;
    assert NextNul(body, 3) == 14;
    assert body[3..14] == BetaToken;
    BetaTokenIsRecognised();
  }

  /**
   * A token with a dangling dot is not a version, and a scan continues past
   * it to the next NUL-delimited segment: `\x00v1.\x00v7\x00` yields `v7`.
   */
  lemma DanglingDotExample()
    ensures FindVersionToken([0x00, 0x76, 0x31, 0x2E, 0x00, 0x76, 0x37, 0x00]) == Some([0x76, 0x37])
  {
    var body: seq<byte> := [0x00, 0x76, 0x31, 0x2E, 0x00, 0x76, 0x37, 0x00];
    assert NextNul(body, 0) == 0;
    assert NextNul(body, 1) == 4;
    assert body[1..4] == [0x76, 0x31, 0x2E];
    assert DigitRun([0x31, 0x2E]) == 1;
    assert [0x76, 0x31, 0x2E][1..] == [0x31, 0x2E];
    assert [0x76, 0x31, 0x2E][2..] == [Dot];
    assert !GroupsThenSuffix([Dot]);
    assert !IsVersionToken(body[1..4]);
    assert NextNul(body, 5) == 7;
    assert body[5..7] == [0x76, 0x37];
  }
}
