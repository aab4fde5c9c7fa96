/** The year bumper: one left-to-right pass of the pattern `\b20\d{2}\b`
    over the whole text, each match replaced by `str(int(match) + 4)`.
    Reading and writing the file is not modelled: the content is the text
    decoded as Latin-1, the result the text that is written back. */
module Years {

  datatype Option<T> = None | Some(value: T)

  /** `\d` on Latin-1 text: the ASCII digits. */
  predicate IsDigit(c: char) {
    '0' <= c <= '9'
  }

  /** `\w` on Latin-1 text: letters and digits as Unicode classifies them
      (which takes in the feminine and masculine ordinals, the superscript
      digits, the micro sign, the vulgar fractions and the accented letters,
      but not the multiplication and division signs), and the underscore. */
  predicate IsWordChar(c: char) {
    IsDigit(c) || ('A' <= c <= 'Z') || ('a' <= c <= 'z') || c == '_'
    || c as int in {0xAA, 0xB2, 0xB3, 0xB5, 0xB9, 0xBA, 0xBC, 0xBD, 0xBE}
    || (0xC0 <= c as int <= 0xFF && c as int != 0xD7 && c as int != 0xF7)
  }

  /** The pattern matches at `i`: "20" and two digits, with no word character
      just before or just after. */
  predicate MatchAt(s: string, i: nat) {
    i + 4 <= |s| && s[i] == '2' && s[i + 1] == '0' && IsDigit(s[i + 2]) && IsDigit(s[i + 3])
    && (i == 0 || !IsWordChar(s[i - 1]))
    && (i + 4 == |s| || !IsWordChar(s[i + 4]))
  }

  /** Position `k` lies inside a match (which then starts at most three
      positions earlier). */
  predicate InMatch(s: string, k: nat) {
    MatchAt(s, k) || (k >= 1 && MatchAt(s, k - 1)) || (k >= 2 && MatchAt(s, k - 2))
    || (k >= 3 && MatchAt(s, k - 3))
  }

  function DigitValue(c: char): nat
    requires IsDigit(c)
  {
    c as int - '0' as int
  }

  function DigitChar(d: nat): (c: char)
    requires d < 10
    ensures IsDigit(c) && DigitValue(c) == d
  {
    ('0' as int + d) as char
  }

  predicate AllDigits(t: string) {
    forall i :: 0 <= i < |t| ==> IsDigit(t[i])
  }

  /** The number a run of decimal digits denotes. */
  function DigitsValue(t: string): nat
    requires AllDigits(t)
    decreases |t|
  {
    if t == [] then 0 else 10 * DigitsValue(t[..|t| - 1]) + DigitValue(t[|t| - 1])
  }

  /** `int(t)`: a non-empty run of digits parses; anything else is the
      `ValueError`, here `None`. */
  function ParseInt(t: string): Option<nat> {
    if |t| > 0 && AllDigits(t) then Some(DigitsValue(t)) else None
  }

  /** `str(n)`: decimal digits, most significant first, no padding. */
  function ShowNat(n: nat): (r: string)
    ensures |r| > 0 && AllDigits(r)
    decreases n
  {
    if n < 10 then [DigitChar(n)] else ShowNat(n / 10) + [DigitChar(n % 10)]
  }

  /** `add_four_to_year`, given the matched text. */
  function AddFourToYear(matched: string): Option<string> {
    match ParseInt(matched)
    case None => None
    case Some(year) => Some(ShowNat(year + 4))
  }

  /** The scan from position `i`: a match is replaced and skipped as a
      whole; any other character is copied. The word boundaries are read in
      the original text, never in replaced text. */
  function Rewrite(s: string, i: nat): Option<string>
    requires i <= |s|
    decreases |s| - i
  {
    if i == |s| then Some([])
    else if MatchAt(s, i) then
      match AddFourToYear(s[i..i + 4])
      case None => None
      case Some(replacement) =>
        match Rewrite(s, i + 4)
        case None => None
        case Some(rest) => Some(replacement + rest)
    else
      match Rewrite(s, i + 1)
      case None => None
      case Some(rest) => Some([s[i]] + rest)
  }

  /** `re.sub(r'\b20\d{2}\b', add_four_to_year, content)`; `None` would be
      an exception raised by the callback. */
  function UpdateYears(content: string): Option<string> {
    Rewrite(content, 0)
  }

  /** The year a match denotes, read off its last two digits. */
  function YearAt(s: string, i: nat): nat
    requires MatchAt(s, i)
  {
    2000 + 10 * DigitValue(s[i + 2]) + DigitValue(s[i + 3])
  }

  /** `int(str(n)) == n`. */
  lemma {:induction false} ParseShowNat(n: nat)
    ensures ParseInt(ShowNat(n)) == Some(n)
    decreases n
  {
    var r := ShowNat(n);
    if n >= 10 {
      ParseShowNat(n / 10);
      assert r[..|r| - 1] == ShowNat(n / 10);
    } else {
      assert r == [DigitChar(n)];
      assert r[..0] == [];
      assert DigitsValue(r[..0]) == 0;
      assert DigitsValue(r) == DigitValue(r[0]);
    }
  }

  /** A number from 1000 to 9999 prints as exactly four digits. */
  lemma ShowNatFourDigits(n: nat)
    requires 1000 <= n <= 9999
    ensures ShowNat(n) == [DigitChar(n / 1000), DigitChar(n / 100 % 10), DigitChar(n / 10 % 10), DigitChar(n % 10)]
  {
    assert |ShowNat(n / 1000)| == 1;
    assert ShowNat(n / 100) == ShowNat(n / 1000) + [DigitChar(n / 100 % 10)];
    assert ShowNat(n / 10) == ShowNat(n / 100) + [DigitChar(n / 10 % 10)];
  }

  /** The integer parse of a match cannot fail: the callback returns the
      four-digit decimal form of the matched year plus four, a year from 2004
      to 2103. */
  lemma AddFourOnMatch(s: string, i: nat)
    requires MatchAt(s, i)
    ensures 2004 <= YearAt(s, i) + 4 <= 2103
    ensures AddFourToYear(s[i..i + 4]) == Some(ShowNat(YearAt(s, i) + 4))
    ensures |ShowNat(YearAt(s, i) + 4)| == 4
    ensures ParseInt(ShowNat(YearAt(s, i) + 4)) == Some(YearAt(s, i) + 4)
  {
    var t := s[i..i + 4];
    assert AllDigits(t);
    assert t[..3] == s[i..i + 3] && s[i..i + 3][..2] == s[i..i + 2] && s[i..i + 2][..1] == s[i..i + 1];
    assert s[i..i + 1][..0] == [];
    assert DigitsValue(s[i..i + 1]) == 2;
    assert DigitsValue(s[i..i + 2]) == 20;
    assert DigitsValue(s[i..i + 3]) == 200 + DigitValue(s[i + 2]);
    assert DigitsValue(t) == YearAt(s, i);
    ShowNatFourDigits(YearAt(s, i) + 4);
    ParseShowNat(YearAt(s, i) + 4);
  }

  /** Two matches never overlap: a match needs a non-word character before
      it, and the first three characters of a match are digits. */
  lemma MatchesDisjoint(s: string, i: nat, j: nat)
    requires MatchAt(s, i) && MatchAt(s, j) && i < j
    ensures i + 4 <= j
  {
  }

  /** The text that replaces the match at `j`: its year plus four, printed. */
  function Bump(s: string, j: nat): (r: string)
    requires MatchAt(s, j)
    ensures |r| == 4
  {
    ShowNatFourDigits(YearAt(s, j) + 4);
    ShowNat(YearAt(s, j) + 4)
  }

  /** What position `k` of the output must hold, stated independently of
      the scan: inside a match, the corresponding digit of the bumped year;
      elsewhere, the input character. */
  function ExpectedAt(s: string, k: nat): char
    requires k < |s|
  {
    if MatchAt(s, k) then Bump(s, k)[0]
    else if k >= 1 && MatchAt(s, k - 1) then Bump(s, k - 1)[1]
    else if k >= 2 && MatchAt(s, k - 2) then Bump(s, k - 2)[2]
    else if k >= 3 && MatchAt(s, k - 3) then Bump(s, k - 3)[3]
    else s[k]
  }

  /** The reference output from position `i` on, built from `ExpectedAt`. */
  function ExpectedFrom(s: string, i: nat): string
    requires i <= |s|
    decreases |s| - i
  {
    if i == |s| then [] else [ExpectedAt(s, i)] + ExpectedFrom(s, i + 1)
  }

  lemma {:induction false} ExpectedFromAt(s: string, i: nat)
    requires i <= |s|
    ensures |ExpectedFrom(s, i)| == |s| - i
    ensures forall k :: i <= k < |s| ==> ExpectedFrom(s, i)[k - i] == ExpectedAt(s, k)
    decreases |s| - i
  {
    if i < |s| {
      ExpectedFromAt(s, i + 1);
      var r := ExpectedFrom(s, i);
      var rest := ExpectedFrom(s, i + 1);
      assert r == [ExpectedAt(s, i)] + rest;
      forall k | i <= k < |s| ensures r[k - i] == ExpectedAt(s, k) {
        if k > i {
          assert r[k - i] == rest[k - (i + 1)];
        }
      }
    }
  }

  function Expected(s: string): string {
    ExpectedFrom(s, 0)
  }

  lemma ExpectedIsPointwise(s: string)
    ensures |Expected(s)| == |s|
    ensures forall k :: 0 <= k < |s| ==> Expected(s)[k] == ExpectedAt(s, k)
  {
    ExpectedFromAt(s, 0);
    forall k | 0 <= k < |s| ensures Expected(s)[k] == ExpectedAt(s, k) {
      assert ExpectedFrom(s, 0)[k - 0] == ExpectedAt(s, k);
    }
  }

  /** No match that starts before `i` reaches `i`. */
  ghost predicate Aligned(s: string, i: nat) {
    forall j: nat :: j < i && MatchAt(s, j) ==> j + 4 <= i
  }

  /** `out` is what the scan from `i` should produce. */
  ghost predicate Agrees(s: string, i: nat, out: string)
    requires i <= |s|
  {
    |out| == |s| - i && forall k :: i <= k < |s| ==> out[k - i] == ExpectedAt(s, k)
  }

  lemma MatchStep(s: string, i: nat, rest: string)
    requires MatchAt(s, i) && Agrees(s, i + 4, rest)
    ensures Agrees(s, i, Bump(s, i) + rest)
  {
    var out := Bump(s, i) + rest;
    forall k | i <= k < |s| ensures out[k - i] == ExpectedAt(s, k) {
      if k >= i + 4 {
        assert out[k - i] == rest[k - (i + 4)];
      }
    }
  }

  lemma CopyStep(s: string, i: nat, rest: string)
    requires i < |s| && !MatchAt(s, i) && Aligned(s, i) && Agrees(s, i + 1, rest)
    ensures Agrees(s, i, [s[i]] + rest)
  {
    assert i >= 1 ==> !MatchAt(s, i - 1);
    assert i >= 2 ==> !MatchAt(s, i - 2);
    assert i >= 3 ==> !MatchAt(s, i - 3);
  }

  /** The scan from an aligned position succeeds and produces what `Agrees`
      describes. */
  lemma {:induction false} RewriteSpec(s: string, i: nat)
    requires i <= |s| && Aligned(s, i)
    ensures Rewrite(s, i).Some? && Agrees(s, i, Rewrite(s, i).value)
    decreases |s| - i
  {
    if i == |s| {
    } else if MatchAt(s, i) {
      AddFourOnMatch(s, i);
      forall j: nat | j < i + 4 && MatchAt(s, j) ensures j + 4 <= i + 4 {
        if i < j { MatchesDisjoint(s, i, j); }
      }
      RewriteSpec(s, i + 4);
      MatchStep(s, i, Rewrite(s, i + 4).value);
    } else {
      RewriteSpec(s, i + 1);
      CopyStep(s, i, Rewrite(s, i + 1).value);
    }
  }

  /** The whole rewrite never fails and produces the reference output. */
  lemma UpdateYearsSpec(content: string)
    ensures UpdateYears(content) == Some(Expected(content))
  {
    RewriteSpec(content, 0);
    ExpectedIsPointwise(content);
    var out := UpdateYears(content).value;
    forall k | 0 <= k < |content| ensures out[k] == Expected(content)[k] {
      assert out[k - 0] == ExpectedAt(content, k);
    }
    assert out == Expected(content);
  }

  /** Hence: the output is as long as the input, every character outside a
      match is unchanged, and each match `20dd` is replaced by the four
      digits of its value plus four. */
  lemma UpdateYearsEffect(content: string)
    ensures UpdateYears(content).Some?
    ensures |UpdateYears(content).value| == |content|
    ensures forall k :: 0 <= k < |content| && !InMatch(content, k) ==>
              UpdateYears(content).value[k] == content[k]
    ensures forall j: nat :: MatchAt(content, j) ==>
              UpdateYears(content).value[j..j + 4] == ShowNat(YearAt(content, j) + 4)
  {
    UpdateYearsSpec(content);
    ExpectedIsPointwise(content);
    var out := UpdateYears(content).value;
    forall j: nat | MatchAt(content, j) ensures out[j..j + 4] == ShowNat(YearAt(content, j) + 4) {
      assert !MatchAt(content, j + 1) && !MatchAt(content, j + 2) && !MatchAt(content, j + 3);
      assert out[j..j + 4] == [out[j], out[j + 1], out[j + 2], out[j + 3]];
    }
  }

  /** A text with no match is returned unchanged. */
  lemma NoMatchUnchanged(content: string)
    requires forall j: nat :: !MatchAt(content, j)
    ensures UpdateYears(content) == Some(content)
  {
    UpdateYearsSpec(content);
    ExpectedIsPointwise(content);
    var out := UpdateYears(content).value;
    forall k | 0 <= k < |content| ensures out[k] == content[k] {
      assert ExpectedAt(content, k) == content[k];
    }
    assert out == content;
  }

  /** A cut just before or just after a non-word character. */
  predicate CutAtNonWord(a: string, b: string) {
    (|a| > 0 && !IsWordChar(a[|a| - 1])) || (|b| > 0 && !IsWordChar(b[0]))
  }

  /** No match of `a + b` straddles such a cut. */
  lemma NoMatchAcrossCut(a: string, b: string, j: nat)
    requires CutAtNonWord(a, b) && j < |a| < j + 4
    ensures !MatchAt(a + b, j)
  {
    var s := a + b;
    if |a| > 0 && !IsWordChar(a[|a| - 1]) {
      assert s[|a| - 1] == a[|a| - 1];
    } else {
      assert s[|a|] == b[0];
    }
  }

  /** Left of such a cut, `a + b` matches where `a` does, with the same year. */
  lemma MatchShiftLeft(a: string, b: string, j: nat)
    requires CutAtNonWord(a, b) && j < |a|
    ensures MatchAt(a + b, j) <==> MatchAt(a, j)
    ensures MatchAt(a, j) ==> Bump(a + b, j) == Bump(a, j)
  {
    var s := a + b;
    if j + 4 > |a| {
      NoMatchAcrossCut(a, b, j);
    } else if j + 4 == |a| {
      assert |b| > 0 ==> s[j + 4] == b[0];
    } else {
      assert s[j + 4] == a[j + 4];
    }
  }

  /** Right of such a cut, `a + b` matches where `b` does, with the same year. */
  lemma MatchShiftRight(a: string, b: string, j: nat)
    requires CutAtNonWord(a, b) && |a| <= j
    ensures MatchAt(a + b, j) <==> MatchAt(b, j - |a|)
    ensures MatchAt(b, j - |a|) ==> Bump(a + b, j) == Bump(b, j - |a|)
  {
    var s := a + b;
    if j == |a| && |a| > 0 {
      assert s[j - 1] == a[|a| - 1];
    } else if |a| < j <= |s| {
      assert s[j - 1] == b[j - 1 - |a|];
    }
  }

  lemma ExpectedAtLeft(a: string, b: string, k: nat)
    requires CutAtNonWord(a, b) && k < |a|
    ensures ExpectedAt(a + b, k) == ExpectedAt(a, k)
  {
    MatchShiftLeft(a, b, k);
    if k >= 1 { MatchShiftLeft(a, b, k - 1); }
    if k >= 2 { MatchShiftLeft(a, b, k - 2); }
    if k >= 3 { MatchShiftLeft(a, b, k - 3); }
  }

  /** Position `k - m` of `a + b`, for `m < 4`, matches as `b` does at the
      corresponding position, a position before `b` never matching. */
  lemma MatchRightOfCut(a: string, b: string, k: nat, m: nat)
    requires CutAtNonWord(a, b) && |a| <= k && m <= k && m < 4
    ensures k - m < |a| ==> !MatchAt(a + b, k - m)
    ensures k - m >= |a| ==> (MatchAt(a + b, k - m) <==> MatchAt(b, k - m - |a|))
    ensures k - m >= |a| && MatchAt(b, k - m - |a|) ==> Bump(a + b, k - m) == Bump(b, k - m - |a|)
  {
    if k - m < |a| {
      NoMatchAcrossCut(a, b, k - m);
    } else {
      MatchShiftRight(a, b, k - m);
    }
  }

  lemma ExpectedAtRight(a: string, b: string, k: nat)
    requires CutAtNonWord(a, b) && |a| <= k < |a| + |b|
    ensures ExpectedAt(a + b, k) == ExpectedAt(b, k - |a|)
  {
    MatchRightOfCut(a, b, k, 0);
    if k >= 1 { MatchRightOfCut(a, b, k, 1); }
    if k >= 2 { MatchRightOfCut(a, b, k, 2); }
    if k >= 3 { MatchRightOfCut(a, b, k, 3); }
    assert (a + b)[k] == b[k - |a|];
  }

  /** Text cut at a non-word character is rewritten piece by piece. */
  lemma ExpectedConcat(a: string, b: string)
    requires CutAtNonWord(a, b)
    ensures Expected(a + b) == Expected(a) + Expected(b)
  {
    var s := a + b;
    ExpectedIsPointwise(s);
    ExpectedIsPointwise(a);
    ExpectedIsPointwise(b);
    forall k | 0 <= k < |s| ensures Expected(s)[k] == (Expected(a) + Expected(b))[k] {
      if k < |a| {
        ExpectedAtLeft(a, b, k);
      } else {
        ExpectedAtRight(a, b, k);
      }
    }
  }

  /** Text without the digit 2 holds no match and is kept as it is. */
  lemma ExpectedWithoutTwo(s: string)
    requires '2' !in s
    ensures Expected(s) == s
  {
    ExpectedIsPointwise(s);
    forall k | 0 <= k < |s| ensures Expected(s)[k] == s[k] {
      assert !MatchAt(s, k);
    }
  }

  /** A text that is one match becomes its bumped year. */
  lemma ExpectedLoneYear(s: string)
    requires |s| == 4 && MatchAt(s, 0)
    ensures Expected(s) == Bump(s, 0)
  {
    ExpectedIsPointwise(s);
    assert !MatchAt(s, 1) && !MatchAt(s, 2) && !MatchAt(s, 3);
  }
}
