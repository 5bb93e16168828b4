/** The high score file: its text is parsed like Python's
    `int(text.strip())`, with 0 for a missing file or text that is not an
    integer; a score is saved as `str(score)`. After each round the high
    score becomes the maximum and the file is rewritten only when it is
    beaten. */
module Highscore {

  datatype Option<T> = None | Some(value: T)

  /** The characters `str.strip()` removes: the ASCII controls tab to
      carriage return, the separators 0x1C to 0x1F, space, and the Unicode
      spaces and line separators. */
  predicate IsWhitespace(c: char) {
    var n := c as int;
    (9 <= n <= 13) || (28 <= n <= 32) || n == 0x85 || n == 0xA0 || n == 0x1680
    || (0x2000 <= n <= 0x200A) || n == 0x2028 || n == 0x2029 || n == 0x202F
    || n == 0x205F || n == 0x3000
  }

  /** The leading whitespace dropped. */
  function TrimStart(s: string): (r: string)
    ensures |r| <= |s| && r == s[|s| - |r|..]
    ensures forall i :: 0 <= i < |s| - |r| ==> IsWhitespace(s[i])
    ensures r == [] || !IsWhitespace(r[0])
    decreases |s|
  {
    if s != [] && IsWhitespace(s[0]) then TrimStart(s[1..]) else s
  }

  /** The trailing whitespace dropped. */
  function TrimEnd(s: string): (r: string)
    ensures |r| <= |s| && r == s[..|r|]
    ensures forall i :: |r| <= i < |s| ==> IsWhitespace(s[i])
    ensures r == [] || !IsWhitespace(r[|r| - 1])
    decreases |s|
  {
    if s != [] && IsWhitespace(s[|s| - 1]) then TrimEnd(s[..|s| - 1]) else s
  }

  /** `str.strip()`: the text without whitespace at either end. */
  function Strip(s: string): (r: string)
    ensures |r| <= |s|
    ensures r == [] || (!IsWhitespace(r[0]) && !IsWhitespace(r[|r| - 1]))
  {
    TrimEnd(TrimStart(s))
  }

  predicate IsDigit(c: char) {
    '0' <= c <= '9'
  }

  predicate AllDigits(s: string) {
    forall i :: 0 <= i < |s| ==> IsDigit(s[i])
  }

  /** What `int()` accepts here: an optional sign and at least one ASCII
      digit. */
  predicate IsIntLiteral(t: string) {
    (|t| > 0 && AllDigits(t))
    || (|t| > 1 && (t[0] == '+' || t[0] == '-') && AllDigits(t[1..]))
  }

  /** The value of a run of decimal digits, most significant first. */
  function DigitsValue(s: string): nat
    requires AllDigits(s)
    decreases |s|
  {
    if s == [] then 0
    else 10 * DigitsValue(s[..|s| - 1]) + ((s[|s| - 1] as int) - ('0' as int))
  }

  /** `int(t)`, or `None` where it raises `ValueError`. */
  function ParseInt(t: string): (r: Option<int>)
    ensures r.Some? <==> IsIntLiteral(t)
    ensures r.Some? && t[0] == '-' ==> r.value <= 0
    ensures r.Some? && t[0] != '-' ==> r.value >= 0
  {
    if |t| > 0 && AllDigits(t) then Some(DigitsValue(t) as int)
    else if |t| > 1 && t[0] == '-' && AllDigits(t[1..]) then Some(-(DigitsValue(t[1..]) as int))
    else if |t| > 1 && t[0] == '+' && AllDigits(t[1..]) then Some(DigitsValue(t[1..]))
    else None
  }

  /** `load_highscore`: `None` stands for a path that is not a file. */
  function Load(file: Option<string>): (n: int)
    ensures file.None? ==> n == 0
    ensures file.Some? && !IsIntLiteral(Strip(file.value)) ==> n == 0
  {
    match file
    case None => 0
    case Some(text) =>
      match ParseInt(Strip(text))
      case Some(n) => n
      case None => 0
  }

  function DigitChar(d: nat): (c: char)
    requires d < 10
    ensures IsDigit(c) && (c as int) - ('0' as int) == d
  {
    ('0' as int + d) as char
  }

  /** The decimal digits of `n`, without leading zeros. */
  function ShowNat(n: nat): (s: string)
    ensures |s| > 0 && AllDigits(s)
    ensures s[0] == '0' ==> s == "0"
    decreases n
  {
    if n < 10 then [DigitChar(n)] else ShowNat(n / 10) + [DigitChar(n % 10)]
  }

  /** `str(n)`: what `save_highscore` writes. */
  function Show(n: int): (s: string)
    ensures IsIntLiteral(s) && s[0] != '+'
    ensures (s[0] == '-') <==> n < 0
  {
    if n < 0 then "-" + ShowNat(-n) else ShowNat(n)
  }

  lemma {:induction false} DigitsOfShowNat(n: nat)
    ensures DigitsValue(ShowNat(n)) == n
    decreases n
  {
    if n >= 10 {
      var s := ShowNat(n);
      assert s[..|s| - 1] == ShowNat(n / 10);
      DigitsOfShowNat(n / 10);
    }
  }

  /** Text that starts and ends with a non-whitespace character, with
      whitespace around it, strips to itself. */
  lemma {:induction false} StripSurrounded(before: string, t: string, after: string)
    requires |t| > 0 && !IsWhitespace(t[0]) && !IsWhitespace(t[|t| - 1])
    requires forall i :: 0 <= i < |before| ==> IsWhitespace(before[i])
    requires forall i :: 0 <= i < |after| ==> IsWhitespace(after[i])
    ensures Strip(before + t + after) == t
  {
    TrimStartOf(before, t + after);
    assert before + t + after == before + (t + after);
    TrimEndOf(t, after);
  }

  lemma {:induction false} TrimStartOf(before: string, rest: string)
    requires |rest| > 0 && !IsWhitespace(rest[0])
    requires forall i :: 0 <= i < |before| ==> IsWhitespace(before[i])
    ensures TrimStart(before + rest) == rest
    decreases |before|
  {
    if before != [] {
      var s := before + rest;
      assert s[0] == before[0] && IsWhitespace(s[0]);
      assert s[1..] == before[1..] + rest;
      TrimStartOf(before[1..], rest);
      assert TrimStart(s) == TrimStart(s[1..]);
    } else {
      assert before + rest == rest;
    }
  }

  lemma {:induction false} TrimEndOf(rest: string, after: string)
    requires |rest| > 0 && !IsWhitespace(rest[|rest| - 1])
    requires forall i :: 0 <= i < |after| ==> IsWhitespace(after[i])
    ensures TrimEnd(rest + after) == rest
    decreases |after|
  {
    if after != [] {
      var s := rest + after;
      assert s[|s| - 1] == after[|after| - 1] && IsWhitespace(s[|s| - 1]);
      assert s[..|s| - 1] == rest + after[..|after| - 1];
      TrimEndOf(rest, after[..|after| - 1]);
      assert TrimEnd(s) == TrimEnd(s[..|s| - 1]);
    } else {
      assert rest + after == rest;
    }
  }

  /** Loading what was saved gives back the saved number, with any
      whitespace around it (a trailing newline added by an editor, say). */
  lemma {:induction false} LoadAfterSave(before: string, n: int, after: string)
    requires forall i :: 0 <= i < |before| ==> IsWhitespace(before[i])
    requires forall i :: 0 <= i < |after| ==> IsWhitespace(after[i])
    ensures Load(Some(before + Show(n) + after)) == n
  {
    var s := Show(n);
    StripSurrounded(before, s, after);
    ParseShow(n);
  }

  /** `int(str(n)) == n`. */
  lemma ParseShow(n: int)
    ensures ParseInt(Show(n)) == Some(n)
  {
    if n < 0 {
      var s := Show(n);
      var digits := ShowNat(-n);
      assert s == "-" + digits && s[1..] == digits;
      assert !IsDigit(s[0]);
      DigitsOfShowNat(-n);
      assert ParseInt(s) == Some(-(DigitsValue(digits) as int));
    } else {
      DigitsOfShowNat(n);
      assert ParseInt(ShowNat(n)) == Some(DigitsValue(ShowNat(n)) as int);
    }
  }

  /** `save_highscore(n)` followed by `load_highscore()` yields `n`. */
  lemma {:induction false} SaveThenLoad(n: int)
    ensures Load(Some(Show(n))) == n
  {
    var s := Show(n);
    assert "" + s + "" == s;
    LoadAfterSave("", n, "");
  }

  /** The effect of a finished round on the high score: the value the game
      keeps, whether the game-over screen congratulates, and the text written
      to the file, if any. */
  datatype HighscoreUpdate = HighscoreUpdate(highscore: int, newHigh: bool, written: Option<string>)

  function AfterRound(highscore: int, score: int): (u: HighscoreUpdate)
    ensures u.highscore >= highscore && u.highscore >= score
    ensures u.highscore == highscore || u.highscore == score
    ensures u.newHigh <==> score > highscore
    ensures u.written.Some? <==> u.newHigh
    ensures u.written.Some? ==> u.written.value == Show(u.highscore)
  {
    if score > highscore then
      HighscoreUpdate(score, true, Some(Show(score)))
    else
      HighscoreUpdate(highscore, false, None)
  }

  /** The game's outer loop as far as the high score goes: load it once,
      then fold in the score of each round. The kept value is the maximum
      of the loaded one and all scores, the file always loads back to it,
      and the file is left alone unless some round beat the loaded value. */
  method Session(file: Option<string>, scores: seq<nat>) returns (highscore: int, stored: Option<string>)
    ensures Load(stored) == highscore
    ensures highscore >= Load(file) && forall k :: 0 <= k < |scores| ==> highscore >= scores[k]
    ensures highscore == Load(file) || exists k :: 0 <= k < |scores| && highscore == scores[k]
    ensures stored == file || stored == Some(Show(highscore))
    ensures (forall k :: 0 <= k < |scores| ==> scores[k] <= Load(file)) ==> stored == file
  {
    ghost var loaded := Load(file);
    highscore := Load(file);
    stored := file;
    for i := 0 to |scores|
      invariant highscore >= loaded && forall k :: 0 <= k < i ==> highscore >= scores[k]
      invariant highscore == loaded || exists k :: 0 <= k < i && highscore == scores[k]
      invariant if highscore == loaded then stored == file else stored == Some(Show(highscore))
    {
      var update := AfterRound(highscore, scores[i]);
      if update.written.Some? {
        assert scores[i] > highscore >= loaded;
        highscore := scores[i];
        stored := update.written;
      } else {
        assert update.highscore == highscore;
      }
    }
    if highscore != loaded {
      SaveThenLoad(highscore);
    }
  }
}
