/**
 * parse_message: the tolerant key/value scan of one telemetry frame such as
 * "S1,V4106,C55,U841,s6835,r-58,n12". Tokens are a letter followed by an
 * optionally negative decimal integer; seven letters name fields, all
 * other letters are ignored, and a later token for a field overwrites an
 * earlier one.
 */
module MessageParser {
  import opened Wrappers
  import opened Decimal

  predicate IsAsciiLetter(c: char)
  {
    ('A' <= c <= 'Z') || ('a' <= c <= 'z')
  }

  /** One match of ([A-Za-z])(-?\d+): the letter and int() of the number. */
  datatype Token = Token(letter: char, value: int)

  /** Length of the longest run of digits at the start of s (the greedy \d+). */
  function DigitRun(s: string): (n: nat)
    ensures n <= |s| && AllDigits(s[..n])
    ensures n < |s| ==> !IsDigit(s[n])
  {
    if s == [] || !IsDigit(s[0]) then 0
    else
      var n := 1 + DigitRun(s[1..]);
      assert s[..n] == [s[0]] + s[1..][..n - 1];
      n
  }

  datatype Match = NoMatch | Match(token: Token, length: nat)

  /** The regular expression tried at the first character of s. */
  function MatchAt(s: string): (m: Match)
    ensures m.Match? ==> 2 <= m.length <= |s| && IsAsciiLetter(m.token.letter)
  {
    if |s| >= 2 && IsAsciiLetter(s[0]) && IsDigit(s[1]) then
      var n := DigitRun(s[1..]);
      assert s[1..1 + n] == s[1..][..n];
      Match(Token(s[0], DigitsValue(s[1..1 + n])), 1 + n)
    else if |s| >= 3 && IsAsciiLetter(s[0]) && s[1] == '-' && IsDigit(s[2]) then
      var n := DigitRun(s[2..]);
      assert s[2..2 + n] == s[2..][..n];
      Match(Token(s[0], -(DigitsValue(s[2..2 + n]) as int)), 2 + n)
    else NoMatch
  }

  /** re.findall: the matches from left to right, each search resuming after the previous match. */
  function Tokens(s: string): (r: seq<Token>)
    ensures forall i :: 0 <= i < |r| ==> IsAsciiLetter(r[i].letter)
    decreases |s|
  {
    if s == [] then []
    else
      match MatchAt(s)
      case NoMatch => Tokens(s[1..])
      case Match(t, n) => [t] + Tokens(s[n..])
  }

  /** The keys of the result dictionary. */
  datatype Field =
    | BatteryVoltage | SolarVoltage | SensorId | MsgCount
    | UltrasonicRange | Rssi | SignalToNoiseRatio

  /** field_map: the seven recognised letters. */
  function FieldOf(c: char): Option<Field>
  {
    match c
    case 'V' => Some(BatteryVoltage)
    case 's' => Some(SolarVoltage)
    case 'S' => Some(SensorId)
    case 'C' => Some(MsgCount)
    case 'U' => Some(UltrasonicRange)
    case 'r' => Some(Rssi)
    case 'n' => Some(SignalToNoiseRatio)
    case _ => None
  }

  /** A dictionary value: an int, or a float holding milli/1000 volts. */
  datatype Reading = Int(n: int) | Volts(milli: int)
  {
    /** The number the value stands for. */
    function Value(): real
    {
      match this
      case Int(n) => n as real
      case Volts(m) => m as real / 1000.0
    }
  }

  predicate IsVoltage(f: Field)
  {
    f == BatteryVoltage || f == SolarVoltage
  }

  /** The stored value for integer n read under field f: millivolts become volts. */
  function ReadingOf(f: Field, n: int): (r: Reading)
    ensures r.Value() == if IsVoltage(f) then n as real / 1000.0 else n as real
  {
    if IsVoltage(f) then Volts(n) else Int(n)
  }

  /** The dictionary after processing the tokens in order. */
  function Fields(toks: seq<Token>): (d: map<Field, Reading>)
    ensures forall f :: f in d ==> (d[f].Volts? <==> IsVoltage(f))
  {
    if toks == [] then map[]
    else
      var prev := Fields(toks[..|toks| - 1]);
      var t := toks[|toks| - 1];
      match FieldOf(t.letter)
      case None => prev
      case Some(f) => prev[f := ReadingOf(f, t.value)]
  }

  /** parse_message as a value. */
  function Parse(message: string): map<Field, Reading>
  {
    Fields(Tokens(message))
  }

  /** parse_message (lines 82-93): the loop filling the dictionary match by match. */
  method ParseMessage(message: string) returns (data: map<Field, Reading>)
    ensures data == Parse(message)
  {
    var matches := Tokens(message);
    data := map[];
    for i := 0 to |matches|
      invariant data == Fields(matches[..i])
    {
      var key, value := matches[i].letter, matches[i].value;
      assert matches[..i + 1][..i] == matches[..i];
      match FieldOf(key) {
        case Some(f) =>
          if key == 'V' || key == 's' {
            data := data[f := Volts(value)];
          } else {
            data := data[f := Int(value)];
          }
        case None =>
      }
    }
    assert matches[..|matches|] == matches;
  }

  /** Index i holds the last token naming field f. */
  ghost predicate LastFor(toks: seq<Token>, f: Field, i: int)
  {
    && 0 <= i < |toks|
    && FieldOf(toks[i].letter) == Some(f)
    && forall j :: i < j < |toks| ==> FieldOf(toks[j].letter) != Some(f)
  }

  /** A field is in the dictionary exactly when some token names it. */
  lemma {:induction false} FieldsKeys(toks: seq<Token>, f: Field)
    ensures f in Fields(toks) <==> exists i :: 0 <= i < |toks| && FieldOf(toks[i].letter) == Some(f)
  {
    if toks != [] {
      var init := toks[..|toks| - 1];
      FieldsKeys(init, f);
      if exists i :: 0 <= i < |init| && FieldOf(init[i].letter) == Some(f) {
        var i :| 0 <= i < |init| && FieldOf(init[i].letter) == Some(f);
        assert toks[i] == init[i];
      }
      if exists i :: 0 <= i < |toks| && FieldOf(toks[i].letter) == Some(f) {
        var i :| 0 <= i < |toks| && FieldOf(toks[i].letter) == Some(f);
        if i < |init| { assert init[i] == toks[i]; }
      }
    }
  }

  /** The value of a field comes from its last token, scaled for the two voltages. */
  lemma {:induction false} FieldsLastWins(toks: seq<Token>, f: Field, i: int)
    requires LastFor(toks, f, i)
    ensures f in Fields(toks) && Fields(toks)[f] == ReadingOf(f, toks[i].value)
  {
    var init := toks[..|toks| - 1];
    if i < |toks| - 1 {
      assert LastFor(init, f, i) by {
        forall j | i < j < |init| ensures FieldOf(init[j].letter) != Some(f) {
          assert init[j] == toks[j];
        }
      }
      FieldsLastWins(init, f, i);
    }
  }

  /** A token with an unrecognised letter contributes nothing, wherever it stands. */
  lemma {:induction false} FieldsIgnoreUnknown(before: seq<Token>, t: Token, after: seq<Token>)
    requires FieldOf(t.letter).None?
    ensures Fields(before + [t] + after) == Fields(before + after)
  {
    if after == [] {
      assert before + [t] + after == before + [t];
      assert (before + [t])[..|before|] == before;
      assert before + after == before;
    } else {
      var init := after[..|after| - 1];
      var last := after[|after| - 1];
      FieldsIgnoreUnknown(before, t, init);
      assert (before + [t] + after)[..|before + [t] + after| - 1] == before + [t] + init;
      assert (before + after)[..|before + after| - 1] == before + init;
    }
  }

  /** A character no match can start at, continue through or end with. */
  predicate IsSeparator(c: char)
  {
    !IsAsciiLetter(c) && !IsDigit(c) && c != '-'
  }

  /** The greedy digit run stops at a separator. */
  lemma {:induction false} DigitRunSeparator(x: string, c: char, b: string)
    requires IsSeparator(c)
    ensures DigitRun(x + [c] + b) == DigitRun(x)
  {
    if x == [] {
      assert (x + [c] + b)[0] == c;
    } else {
      assert (x + [c] + b)[0] == x[0];
      assert (x + [c] + b)[1..] == x[1..] + [c] + b;
      DigitRunSeparator(x[1..], c, b);
    }
  }

  /** The expression tried at the start of a text finds the same match whatever follows a separator. */
  lemma MatchAtSeparator(a: string, c: char, b: string)
    requires a != [] && IsSeparator(c)
    ensures MatchAt(a + [c] + b) == MatchAt(a)
  {
    var s := a + [c] + b;
    assert s[..|a|] == a && s[|a|] == c;
    assert |s| >= 2 ==> s[1] == (if |a| >= 2 then a[1] else c);
    assert |s| >= 3 ==> s[2] == (if |a| >= 3 then a[2] else if |a| == 2 then c else s[2]);
    if |a| >= 2 && IsAsciiLetter(a[0]) && IsDigit(a[1]) {
      assert s[1..] == a[1..] + [c] + b;
      DigitRunSeparator(a[1..], c, b);
      var n := DigitRun(a[1..]);
      assert s[1..1 + n] == a[1..1 + n];
    } else if |a| >= 3 && IsAsciiLetter(a[0]) && a[1] == '-' && IsDigit(a[2]) {
      assert s[2..] == a[2..] + [c] + b;
      DigitRunSeparator(a[2..], c, b);
      var n := DigitRun(a[2..]);
      assert s[2..2 + n] == a[2..2 + n];
    } else {
      assert !(|s| >= 2 && IsAsciiLetter(s[0]) && IsDigit(s[1]));
      assert !(|s| >= 3 && IsAsciiLetter(s[0]) && s[1] == '-' && IsDigit(s[2]));
    }
  }

  /**
   * No token spans a separator: the scan of a text split at a character that is
   * not a letter, a digit or '-' is the scan of the left part followed by that
   * of the right part.
   */
  lemma {:induction false} TokensSeparator(a: string, c: char, b: string)
    requires IsSeparator(c)
    ensures Tokens(a + [c] + b) == Tokens(a) + Tokens(b)
    decreases |a|
  {
    var s := a + [c] + b;
    if a == [] {
      assert s == [c] + b && s[1..] == b;
      assert MatchAt(s) == NoMatch;
    } else {
      MatchAtSeparator(a, c, b);
      match MatchAt(a)
      case NoMatch =>
        assert s[1..] == a[1..] + [c] + b;
        TokensSeparator(a[1..], c, b);
      case Match(t, n) =>
        assert s[n..] == a[n..] + [c] + b;
        TokensSeparator(a[n..], c, b);
    }
  }

  /** Where nothing matches at the first character, the scan resumes at the next one. */
  lemma TokensSkip(s: string)
    requires s != [] && MatchAt(s).NoMatch?
    ensures Tokens(s) == Tokens(s[1..])
  {
  }

  /** Where the expression matches at the first character, its token comes first. */
  lemma TokensTake(s: string, t: Token, n: nat)
    requires MatchAt(s) == Match(t, n)
    ensures n <= |s| && Tokens(s) == [t] + Tokens(s[n..])
  {
  }

  /**
   * Where the k-th token was found: the expression matches that token at
   * position i of the text, so every token the scan yields is a match.
   */
  lemma {:induction false} TokenStart(s: string, k: nat) returns (i: nat)
    requires k < |Tokens(s)|
    ensures i < |s| && MatchAt(s[i..]).Match? && MatchAt(s[i..]).token == Tokens(s)[k]
    decreases |s|
  {
    match MatchAt(s)
    case NoMatch =>
      TokensSkip(s);
      var j := TokenStart(s[1..], k);
      assert s[1..][j..] == s[1 + j..];
      i := 1 + j;
    case Match(t, n) =>
      TokensTake(s, t, n);
      if k == 0 {
        assert s[0..] == s;
        i := 0;
      } else {
        var rest := Tokens(s[n..]);
        assert ([t] + rest)[k] == rest[k - 1];
        var j := TokenStart(s[n..], k - 1);
        assert s[n..][j..] == s[n + j..];
        i := n + j;
      }
  }

  /** The expression does not match at position j of s. */
  predicate NoMatchAt(s: string, j: nat)
    requires j <= |s|
  {
    MatchAt(s[j..]).NoMatch?
  }

  /**
   * The scan takes the leftmost match: when the expression matches nowhere
   * before position i and matches t of length n at i, the tokens are t
   * followed by the scan resumed after that match.
   */
  lemma {:induction false} TokensLeftmost(s: string, i: nat, t: Token, n: nat)
    requires i < |s| && MatchAt(s[i..]) == Match(t, n)
    requires forall j :: 0 <= j < i ==> NoMatchAt(s, j)
    ensures i + n <= |s| && Tokens(s) == [t] + Tokens(s[i + n..])
    decreases i
  {
    assert s[0..] == s;
    if i == 0 {
      TokensTake(s, t, n);
    } else {
      assert NoMatchAt(s, 0);
      TokensSkip(s);
      var r := s[1..];
      forall j | 0 <= j < i - 1 ensures NoMatchAt(r, j) {
        assert NoMatchAt(s, j + 1);
        assert r[j..] == s[j + 1..];
      }
      assert r[i - 1..] == s[i..];
      TokensLeftmost(r, i - 1, t, n);
      assert r[i - 1 + n..] == s[i + n..];
    }
  }

  /** Where the expression matches at no position, the scan finds nothing. */
  lemma {:induction false} TokensNone(s: string)
    requires forall j :: 0 <= j < |s| ==> NoMatchAt(s, j)
    ensures Tokens(s) == []
    decreases |s|
  {
    if s != [] {
      assert s[0..] == s;
      assert NoMatchAt(s, 0);
      TokensSkip(s);
      forall j | 0 <= j < |s| - 1 ensures NoMatchAt(s[1..], j) {
        assert NoMatchAt(s, j + 1);
        assert s[1..][j..] == s[j + 1..];
      }
      TokensNone(s[1..]);
    }
  }

  /** The text of a token as the sensor writes it, e.g. "r-58". */
  function TokenText(t: Token): string
  {
    [t.letter] + IntText(t.value)
  }

  /** A frame of comma-separated tokens, e.g. "S1,V4106,C55". */
  function FrameText(toks: seq<Token>): string
  {
    if toks == [] then ""
    else if |toks| == 1 then TokenText(toks[0])
    else TokenText(toks[0]) + "," + FrameText(toks[1..])
  }

  /** The greedy digit run stops exactly where the digits stop. */
  lemma {:induction false} DigitRunOf(d: string, rest: string)
    requires AllDigits(d)
    requires rest == [] || !IsDigit(rest[0])
    ensures DigitRun(d + rest) == |d|
  {
    if d != [] {
      assert (d + rest)[1..] == d[1..] + rest;
      DigitRunOf(d[1..], rest);
    } else {
      assert d + rest == rest;
    }
  }

  lemma MatchTokenText(t: Token, rest: string)
    requires IsAsciiLetter(t.letter)
    requires rest == [] || !IsDigit(rest[0])
    ensures MatchAt(TokenText(t) + rest) == Match(t, |TokenText(t)|)
  {
    if t.value >= 0 {
      MatchUnsignedToken(t, rest);
    } else {
      MatchNegativeToken(t, rest);
    }
  }

  lemma MatchUnsignedToken(t: Token, rest: string)
    requires IsAsciiLetter(t.letter) && t.value >= 0
    requires rest == [] || !IsDigit(rest[0])
    ensures MatchAt(TokenText(t) + rest) == Match(t, |TokenText(t)|)
  {
    var d := NatText(t.value);
    assert IntText(t.value) == d;
    assert TokenText(t) + rest == [t.letter] + d + rest;
    assert |TokenText(t)| == 1 + |d|;
    MatchDigits(t.letter, d, rest);
    NatTextValue(t.value);
    assert t == Token(t.letter, DigitsValue(d));
  }

  lemma MatchNegativeToken(t: Token, rest: string)
    requires IsAsciiLetter(t.letter) && t.value < 0
    requires rest == [] || !IsDigit(rest[0])
    ensures MatchAt(TokenText(t) + rest) == Match(t, |TokenText(t)|)
  {
    var n: nat := -t.value;
    var d := NatText(n);
    NegativeTokenText(t);
    NatTextValue(n);
    assert t == Token(t.letter, -(n as int));
    MatchNegativeText(t.letter, t.value, d, TokenText(t), rest);
  }

  /** A text written as letter, '-' and the digits of -v matches as the token for v. */
  lemma MatchNegativeText(c: char, v: int, d: string, text: string, rest: string)
    requires IsAsciiLetter(c) && v < 0 && |d| >= 1 && AllDigits(d) && DigitsValue(d) == -v
    requires text == [c] + "-" + d
    requires rest == [] || !IsDigit(rest[0])
    ensures MatchAt(text + rest) == Match(Token(c, v), |text|)
  {
    MatchNegativeDigits(c, d, rest);
  }

  /** The text of a negative token: its letter, '-', and the digits of the magnitude. */
  lemma NegativeTokenText(t: Token)
    requires t.value < 0
    ensures TokenText(t) == [t.letter] + "-" + NatText(-t.value)
    ensures |TokenText(t)| == 2 + |NatText(-t.value)|
  {
    assert IntText(t.value) == "-" + NatText(-t.value);
  }

  /** A letter followed by digits matches the first alternative, up to the last digit. */
  lemma MatchDigits(c: char, d: string, rest: string)
    requires IsAsciiLetter(c) && |d| >= 1 && AllDigits(d)
    requires rest == [] || !IsDigit(rest[0])
    ensures MatchAt([c] + d + rest) == Match(Token(c, DigitsValue(d)), 1 + |d|)
  {
    var s := [c] + d + rest;
    var t := d + rest;
    SliceAfter([c], d, rest);
    DigitRunOf(d, rest);
    assert IsDigit(s[1]) by { assert s[1] == t[0] == d[0]; }
    MatchUnsignedAt(s, |d|);
  }

  /** A letter, '-' and digits match the second alternative, up to the last digit. */
  lemma MatchNegativeDigits(c: char, d: string, rest: string)
    requires IsAsciiLetter(c) && |d| >= 1 && AllDigits(d)
    requires rest == [] || !IsDigit(rest[0])
    ensures MatchAt([c] + "-" + d + rest) == Match(Token(c, -(DigitsValue(d) as int)), 2 + |d|)
  {
    var p := [c] + "-";
    assert |p| == 2 && p[0] == c && p[1] == '-';
    var s := p + d + rest;
    SliceAfter(p, d, rest);
    DigitRunOf(d, rest);
    assert s[0] == c && s[1] == '-' by { assert s[..2] == p; }
    assert IsDigit(s[2]) by { assert s[2] == (d + rest)[0] == d[0]; }
    MatchNegativeAt(s, |d|);
  }

  /** Where the middle part of a three-part text lies. */
  lemma SliceAfter(p: string, d: string, rest: string)
    ensures (p + d + rest)[|p|..] == d + rest
    ensures (p + d + rest)[|p|..|p| + |d|] == d
    ensures (p + d + rest)[..|p|] == p
  {
  }

  /** A letter and a digit start the first alternative of the expression. */
  lemma MatchUnsignedAt(s: string, n: nat)
    requires |s| >= 2 && IsAsciiLetter(s[0]) && IsDigit(s[1]) && DigitRun(s[1..]) == n
    ensures 1 + n <= |s| && AllDigits(s[1..1 + n])
    ensures MatchAt(s) == Match(Token(s[0], DigitsValue(s[1..1 + n])), 1 + n)
  {
    assert s[1..1 + n] == s[1..][..n];
  }

  /** A letter, '-' and a digit start the second alternative of the expression. */
  lemma MatchNegativeAt(s: string, n: nat)
    requires |s| >= 3 && IsAsciiLetter(s[0]) && s[1] == '-' && IsDigit(s[2]) && DigitRun(s[2..]) == n
    ensures 2 + n <= |s| && AllDigits(s[2..2 + n])
    ensures MatchAt(s) == Match(Token(s[0], -(DigitsValue(s[2..2 + n]) as int)), 2 + n)
  {
    assert s[2..2 + n] == s[2..][..n];
  }

  /** Scanning a frame written token by token gives back exactly those tokens, in order. */
  lemma {:induction false} TokensOfFrame(toks: seq<Token>)
    requires forall i :: 0 <= i < |toks| ==> IsAsciiLetter(toks[i].letter)
    ensures Tokens(FrameText(toks)) == toks
  {
    if |toks| == 1 {
      MatchTokenText(toks[0], "");
      assert TokenText(toks[0]) + "" == FrameText(toks);
      assert FrameText(toks)[|TokenText(toks[0])|..] == [];
    } else if |toks| > 1 {
      var t := toks[0];
      var tail := "," + FrameText(toks[1..]);
      var s := TokenText(t) + tail;
      assert s == FrameText(toks);
      MatchTokenText(t, tail);
      assert s[|TokenText(t)|..] == tail;
      assert MatchAt(tail) == NoMatch;
      assert tail[1..] == FrameText(toks[1..]);
      TokensOfFrame(toks[1..]);
      assert Tokens(s) == [t] + toks[1..];
    }
  }

  /** Processing one more token updates the dictionary for that token alone. */
  lemma FieldsSnoc(toks: seq<Token>, t: Token)
    ensures Fields(toks + [t]) == match FieldOf(t.letter)
                                  case None => Fields(toks)
                                  case Some(f) => Fields(toks)[f := ReadingOf(f, t.value)]
  {
  }

  lemma FrameCons(t: Token, rest: seq<Token>)
    requires rest != []
    ensures FrameText([t] + rest) == TokenText(t) + "," + FrameText(rest)
  {
  }

  /** The tokens of the sensor's documented frame. */
  function ExampleTokens(): seq<Token>
  {
    [Token('S', 1), Token('V', 4106), Token('C', 55), Token('U', 841),
     Token('s', 6835), Token('r', -58), Token('n', 12)]
  }

  lemma ExampleLetters(toks: seq<Token>)
    requires toks == ExampleTokens()
    ensures forall i :: 0 <= i < |toks| ==> IsAsciiLetter(toks[i].letter)
  {
  }

  /** FrameText of seven tokens, unfolded. */
  lemma FrameText7(a: Token, b: Token, c: Token, d: Token, e: Token, f: Token, g: Token)
    ensures FrameText([a, b, c, d, e, f, g])
            == TokenText(a) + "," + (TokenText(b) + "," + (TokenText(c) + "," + (TokenText(d) + ","
               + (TokenText(e) + "," + (TokenText(f) + "," + TokenText(g))))))
  {
    var p6 := [g];
    var p5 := [f] + p6;
    FrameCons(f, p6);
    var p4 := [e] + p5;
    FrameCons(e, p5);
    var p3 := [d] + p4;
    FrameCons(d, p4);
    var p2 := [c] + p3;
    FrameCons(c, p3);
    var p1 := [b] + p2;
    FrameCons(b, p2);
    var p0 := [a] + p1;
    FrameCons(a, p1);
    assert p0 == [a, b, c, d, e, f, g];
  }

  lemma ExampleTokenTexts()
    ensures TokenText(Token('S', 1)) == "S1" && TokenText(Token('V', 4106)) == "V4106"
    ensures TokenText(Token('C', 55)) == "C55" && TokenText(Token('U', 841)) == "U841"
    ensures TokenText(Token('s', 6835)) == "s6835" && TokenText(Token('r', -58)) == "r-58"
    ensures TokenText(Token('n', 12)) == "n12"
  {
    SmallTokenTexts();
    LargeTokenTexts();
  }

  lemma SmallTokenTexts()
    ensures TokenText(Token('S', 1)) == "S1" && TokenText(Token('C', 55)) == "C55"
    ensures TokenText(Token('r', -58)) == "r-58" && TokenText(Token('n', 12)) == "n12"
  {
  }

  lemma LargeTokenTexts()
    ensures TokenText(Token('V', 4106)) == "V4106" && TokenText(Token('U', 841)) == "U841"
    ensures TokenText(Token('s', 6835)) == "s6835"
  {
    NatTextFour(4, 1, 0, 6, 4106);
    NatTextThree(8, 4, 1, 841);
    NatTextFour(6, 8, 3, 5, 6835);
  }

  /** The decimal text of a three-digit number, digit by digit. */
  lemma NatTextThree(a: nat, b: nat, c: nat, n: nat)
    requires 1 <= a < 10 && b < 10 && c < 10 && n == 100 * a + 10 * b + c
    ensures NatText(n) == [DigitChar(a), DigitChar(b), DigitChar(c)]
  {
    var m := 10 * a + b;
    assert n / 10 == m && n % 10 == c;
    assert m / 10 == a && m % 10 == b;
    assert NatText(m) == NatText(a) + [DigitChar(b)] == [DigitChar(a), DigitChar(b)];
    assert NatText(n) == NatText(m) + [DigitChar(c)];
  }

  /** The decimal text of a four-digit number, digit by digit. */
  lemma NatTextFour(a: nat, b: nat, c: nat, d: nat, n: nat)
    requires 1 <= a < 10 && b < 10 && c < 10 && d < 10 && n == 1000 * a + 100 * b + 10 * c + d
    ensures NatText(n) == [DigitChar(a), DigitChar(b), DigitChar(c), DigitChar(d)]
  {
    assert n / 10 == 100 * a + 10 * b + c && n % 10 == d;
    NatTextThree(a, b, c, n / 10);
  }

  lemma ExampleLiteral()
    ensures "S1" + "," + ("V4106" + "," + ("C55" + "," + ("U841" + "," + ("s6835" + "," + ("r-58" + "," + "n12")))))
            == "S1,V4106,C55,U841,s6835,r-58,n12"
  {
  }

  lemma ExampleFrame()
    ensures FrameText(ExampleTokens()) == "S1,V4106,C55,U841,s6835,r-58,n12"
  {
    FrameText7(Token('S', 1), Token('V', 4106), Token('C', 55), Token('U', 841),
               Token('s', 6835), Token('r', -58), Token('n', 12));
    ExampleTokenTexts();
    ExampleLiteral();
  }

  lemma ExampleFields()
    ensures Fields(ExampleTokens())
            == map[SensorId := Int(1), BatteryVoltage := Volts(4106), MsgCount := Int(55),
                   UltrasonicRange := Int(841), SolarVoltage := Volts(6835), Rssi := Int(-58),
                   SignalToNoiseRatio := Int(12)]
  {
    FieldsOfSeven(Token('S', 1), Token('V', 4106), Token('C', 55), Token('U', 841),
                  Token('s', 6835), Token('r', -58), Token('n', 12));
  }

  /** The fold over seven tokens with seven distinct recognised letters. */
  lemma FieldsOfSeven(a: Token, b: Token, c: Token, d: Token, e: Token, f: Token, g: Token)
    requires FieldOf(a.letter) == Some(SensorId) && FieldOf(b.letter) == Some(BatteryVoltage)
    requires FieldOf(c.letter) == Some(MsgCount) && FieldOf(d.letter) == Some(UltrasonicRange)
    requires FieldOf(e.letter) == Some(SolarVoltage) && FieldOf(f.letter) == Some(Rssi)
    requires FieldOf(g.letter) == Some(SignalToNoiseRatio)
    ensures Fields([a, b, c, d, e, f, g])
            == map[SensorId := Int(a.value), BatteryVoltage := Volts(b.value), MsgCount := Int(c.value),
                   UltrasonicRange := Int(d.value), SolarVoltage := Volts(e.value), Rssi := Int(f.value),
                   SignalToNoiseRatio := Int(g.value)]
  {
    var p4 := [a, b, c, d];
    FieldsOfFour(a, b, c, d);
    var p5 := p4 + [e];
    FieldsStep(p4, e, SolarVoltage, Fields(p4));
    var p6 := p5 + [f];
    FieldsStep(p5, f, Rssi, Fields(p5));
    var p7 := p6 + [g];
    FieldsStep(p6, g, SignalToNoiseRatio, Fields(p6));
    assert p7 == [a, b, c, d, e, f, g];
  }

  lemma FieldsOfFour(a: Token, b: Token, c: Token, d: Token)
    requires FieldOf(a.letter) == Some(SensorId) && FieldOf(b.letter) == Some(BatteryVoltage)
    requires FieldOf(c.letter) == Some(MsgCount) && FieldOf(d.letter) == Some(UltrasonicRange)
    ensures Fields([a, b, c, d])
            == map[SensorId := Int(a.value), BatteryVoltage := Volts(b.value), MsgCount := Int(c.value),
                   UltrasonicRange := Int(d.value)]
  {
    var p0: seq<Token> := [];
    var p1 := p0 + [a];
    FieldsStep(p0, a, SensorId, map[]);
    var p2 := p1 + [b];
    FieldsStep(p1, b, BatteryVoltage, Fields(p1));
    var p3 := p2 + [c];
    FieldsStep(p2, c, MsgCount, Fields(p2));
    var p4 := p3 + [d];
    FieldsStep(p3, d, UltrasonicRange, Fields(p3));
    assert p4 == [a, b, c, d];
  }

  /** One step of the fold, for a token with a recognised letter. */
  lemma FieldsStep(toks: seq<Token>, t: Token, f: Field, m: map<Field, Reading>)
    requires Fields(toks) == m && FieldOf(t.letter) == Some(f)
    ensures Fields(toks + [t]) == m[f := ReadingOf(f, t.value)]
  {
    FieldsSnoc(toks, t);
  }

  /** The frame from the sensor's documentation, read field by field. */
  lemma ParseExample()
    ensures Parse("S1,V4106,C55,U841,s6835,r-58,n12")
            == map[SensorId := Int(1), BatteryVoltage := Volts(4106), MsgCount := Int(55),
                   UltrasonicRange := Int(841), SolarVoltage := Volts(6835), Rssi := Int(-58),
                   SignalToNoiseRatio := Int(12)]
  {
    ExampleLetters(ExampleTokens());
    TokensOfFrame(ExampleTokens());
    ExampleFrame();
    ExampleFields();
  }
}
