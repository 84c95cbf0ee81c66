/** The text format of the persisted high score: `save_high_score` writes
    `str(score)` and `load_high_score` reads `int(text.strip())`, with a missing
    file read as 0 (game.py:76-86). */
module ScoreText {
  import opened ListOps

  /** The characters Python's `str.strip()` removes (those for which
      `str.isspace()` holds). */
  predicate IsSpace(c: char)
  {
    var n := c as int;
    (0x09 <= n <= 0x0D) || (0x1C <= n <= 0x20) || n == 0x85 || n == 0xA0 || n == 0x1680
    || (0x2000 <= n <= 0x200A) || n == 0x2028 || n == 0x2029 || n == 0x202F || n == 0x205F
    || n == 0x3000
  }

  predicate AllSpace(s: string)
  {
    forall i :: 0 <= i < |s| ==> IsSpace(s[i])
  }

  predicate IsDigit(c: char)
  {
    '0' <= c <= '9'
  }

  predicate AllDigits(s: string)
  {
    forall i :: 0 <= i < |s| ==> IsDigit(s[i])
  }

  function DigitValue(c: char): nat
    requires IsDigit(c)
  {
    c as int - '0' as int
  }

  function DigitChar(d: nat): (c: char)
    requires d < 10
    ensures IsDigit(c) && DigitValue(c) == d
  {
    ('0' as int + d) as char
  }

  // ---------------------------------------------------------------- strip

  /** Number of whitespace characters at the front of `s`. */
  function LeadingSpaces(s: string): (k: nat)
    ensures k <= |s| && AllSpace(s[..k])
    ensures k < |s| ==> !IsSpace(s[k])
  {
    if |s| == 0 || !IsSpace(s[0]) then 0
    else
      var k := LeadingSpaces(s[1..]);
      assert s[..k + 1] == [s[0]] + s[1..][..k];
      k + 1
  }

  /** Index where the whitespace at the back of `s` begins. */
  function TrailingStart(s: string): (k: nat)
    ensures k <= |s| && AllSpace(s[k..])
    ensures 0 < k ==> !IsSpace(s[k - 1])
  {
    if |s| == 0 || !IsSpace(s[|s| - 1]) then |s|
    else
      var k := TrailingStart(s[..|s| - 1]);
      assert s[k..] == s[..|s| - 1][k..] + [s[|s| - 1]];
      k
  }

  /** `r` is `s` with the whitespace prefix `s[..i]` and a whitespace suffix
      removed. */
  predicate StrippedAt(s: string, i: int, r: string)
  {
    0 <= i <= |s| - |r| && s[i..i + |r|] == r && AllSpace(s[..i]) && AllSpace(s[i + |r|..])
  }

  /** `text.strip()`: `s` is `r` with whitespace removed from both ends, and
      `r` neither starts nor ends with whitespace. */
  function Strip(s: string): (r: string)
    ensures r == [] || (!IsSpace(r[0]) && !IsSpace(r[|r| - 1]))
    ensures exists i :: StrippedAt(s, i, r)
  {
    var i, j := LeadingSpaces(s), TrailingStart(s);
    if i < j then
      assert StrippedAt(s, i, s[i..j]);
      s[i..j]
    else
      assert i == |s|;
      assert StrippedAt(s, |s|, []);
      []
  }

  // ---------------------------------------------------------------- int()

  /** The digits of a numeral with its `_` separators dropped. */
  function Digits(s: string): string
  {
    if |s| == 0 then []
    else (if s[0] == '_' then [] else [s[0]]) + Digits(s[1..])
  }

  /** A base-10 numeral as `int()` accepts it: digits, single underscores only
      between two digits. */
  predicate WellFormedDigits(s: string)
  {
    && |s| > 0 && IsDigit(s[0]) && IsDigit(s[|s| - 1])
    && (forall i :: 0 <= i < |s| ==> IsDigit(s[i]) || s[i] == '_')
    && (forall i :: 0 <= i < |s| - 1 ==> s[i] == '_' ==> s[i + 1] != '_')
  }

  /** The natural number a string of decimal digits denotes. */
  function ValueOf(s: string): nat
    requires AllDigits(s)
  {
    if |s| == 0 then 0
    else ValueOf(s[..|s| - 1]) * 10 + DigitValue(s[|s| - 1])
  }

  lemma DigitsOfWellFormed(s: string)
    requires forall i :: 0 <= i < |s| ==> IsDigit(s[i]) || s[i] == '_'
    ensures AllDigits(Digits(s))
  {
    if |s| > 0 {
      DigitsOfWellFormed(s[1..]);
    }
  }

  lemma DigitsOfDigits(s: string)
    requires AllDigits(s)
    ensures Digits(s) == s
  {
    if |s| > 0 {
      DigitsOfDigits(s[1..]);
      assert s == [s[0]] + s[1..];
    }
  }

  /** `int(s)` for a string that `strip()` has already trimmed: an optional
      sign and a numeral. `None` is the `ValueError` `int()` raises. */
  function ParseInt(s: string): (r: Option<int>)
    ensures r.Some? ==> |s| > 0 && IsDigit(s[|s| - 1])
    ensures r.Some? && r.value < 0 ==> s[0] == '-'
    ensures |s| > 0 && AllDigits(s) ==> r == Some(ValueOf(s))
    ensures |s| > 1 && s[0] == '-' && AllDigits(s[1..]) ==> r == Some(-(ValueOf(s[1..]) as int))
  {
    var signed := |s| > 0 && (s[0] == '-' || s[0] == '+');
    var body := if signed then s[1..] else s;
    if WellFormedDigits(body) then
      DigitsOfWellFormed(body);
      var n: int := ValueOf(Digits(body));
      assert AllDigits(body) ==> n == ValueOf(body) by {
        if AllDigits(body) {
          DigitsOfDigits(body);
        }
      }
      Some(if signed && s[0] == '-' then -n else n)
    else None
  }

  /** `int(text.strip())`: blank text is rejected, and a bare numeral is read
      as its value. */
  function Decode(text: string): (r: Option<int>)
    ensures AllSpace(text) ==> r.None?
    ensures |text| > 0 && AllDigits(text) ==> r == Some(ValueOf(text))
  {
    BlankStrips(text);
    DigitsStrip(text);
    ParseInt(Strip(text))
  }

  // ---------------------------------------------------------------- str()

  /** `str(n)`: the decimal numeral of `n`, without a sign or leading zeros. */
  function Encode(n: nat): (s: string)
    ensures |s| > 0 && AllDigits(s)
    ensures s[0] == '0' ==> n == 0
  {
    if n < 10 then [DigitChar(n)]
    else Encode(n / 10) + [DigitChar(n % 10)]
  }

  /** `load_high_score`: a missing file gives 0, otherwise the file's text is
      decoded; `None` is the uncaught `ValueError` of unreadable contents. */
  function LoadHighScore(stored: Option<string>): (r: Option<int>)
    ensures stored.None? ==> r == Some(0)
    ensures stored.Some? && AllSpace(stored.value) ==> r.None?
    ensures stored.Some? && |stored.value| > 0 && AllDigits(stored.value) ==> r == Some(ValueOf(stored.value))
  {
    match stored
    case None => Some(0)
    case Some(text) => Decode(text)
  }

  // ---------------------------------------------------------------- lemmas

  /** Blank text strips to nothing. */
  lemma BlankStrips(s: string)
    ensures AllSpace(s) ==> Strip(s) == []
  {
  }

  /** A numeral strips to itself. */
  lemma DigitsStrip(s: string)
    ensures |s| > 0 && AllDigits(s) ==> Strip(s) == s
  {
    if |s| > 0 && AllDigits(s) {
      StripTrimmed(s);
    }
  }

  /** The numeral `str(n)` denotes `n`. */
  lemma {:induction false} ValueOfEncode(n: nat)
    ensures ValueOf(Encode(n)) == n
  {
    if n >= 10 {
      var e := Encode(n / 10);
      var s := e + [DigitChar(n % 10)];
      assert s[..|s| - 1] == e;
      ValueOfEncode(n / 10);
    }
  }

  /** `Strip` leaves a string unchanged when its ends are not whitespace. */
  lemma StripTrimmed(s: string)
    requires |s| > 0 && !IsSpace(s[0]) && !IsSpace(s[|s| - 1])
    ensures Strip(s) == s
  {
    assert s[0..|s|] == s;
  }

  /** Reading back what `save_high_score` wrote gives the saved score. */
  lemma DecodeEncode(n: nat)
    ensures Decode(Encode(n)) == Some(n)
  {
    var s := Encode(n);
    StripTrimmed(s);
    DigitsOfDigits(s);
    ValueOfEncode(n);
  }

  lemma {:induction false} LeadingSpacesOfPadded(pre: string, s: string)
    requires AllSpace(pre) && |s| > 0 && !IsSpace(s[0])
    ensures LeadingSpaces(pre + s) == |pre|
  {
    if |pre| > 0 {
      assert (pre + s)[1..] == pre[1..] + s;
      LeadingSpacesOfPadded(pre[1..], s);
    }
  }

  lemma {:induction false} TrailingStartOfPadded(s: string, post: string)
    requires AllSpace(post) && |s| > 0 && !IsSpace(s[|s| - 1])
    ensures TrailingStart(s + post) == |s|
  {
    if |post| > 0 {
      assert (s + post)[..|s + post| - 1] == s + post[..|post| - 1];
      TrailingStartOfPadded(s, post[..|post| - 1]);
    }
  }

  /** Whitespace around the stored numeral, such as a trailing newline, is
      ignored when the high score is read. */
  lemma DecodePadded(pre: string, n: nat, post: string)
    requires AllSpace(pre) && AllSpace(post)
    ensures Decode(pre + Encode(n) + post) == Some(n)
  {
    var e := Encode(n);
    var s := pre + e + post;
    assert s == pre + (e + post);
    LeadingSpacesOfPadded(pre, e + post);
    assert s == (pre + e) + post;
    TrailingStartOfPadded(pre + e, post);
    assert s[|pre|..|pre| + |e|] == e;
    DecodeEncode(n);
    StripTrimmed(e);
  }

  /** The persisted high score survives a save followed by a load. */
  lemma SaveThenLoad(n: nat)
    ensures LoadHighScore(Some(Encode(n))) == Some(n)
  {
    DecodeEncode(n);
  }
}
