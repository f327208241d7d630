/** Python's int(s, 16) on ASCII text. */
module HexInt {
  import opened Common
  import opened Bits

  predicate IsSpace(c: char) {
    '\t' <= c <= '\r' || '\U{1c}' <= c <= ' '
  }

  predicate IsHexDigit(c: char) {
    '0' <= c <= '9' || 'a' <= c <= 'f' || 'A' <= c <= 'F'
  }

  function DigitValue(c: char): nat {
    if '0' <= c <= '9' then (c - '0') as nat
    else if 'a' <= c <= 'f' then (c - 'a') as nat + 10
    else if 'A' <= c <= 'F' then (c - 'A') as nat + 10
    else 0
  }

  /** The value of a digit string, in which underscores do not count. */
  function HexValue(s: string): nat {
    if s == "" then 0
    else
      var c, front := s[|s| - 1], HexValue(s[..|s| - 1]);
      if c == '_' then front else 16 * front + DigitValue(c)
  }

  function StripLeft(s: string): string {
    if s != "" && IsSpace(s[0]) then StripLeft(s[1..]) else s
  }

  function StripRight(s: string): string {
    if s != "" && IsSpace(s[|s| - 1]) then StripRight(s[..|s| - 1]) else s
  }

  predicate HasSign(s: string) {
    s != "" && (s[0] == '+' || s[0] == '-')
  }

  /** What follows a "0x", with one underscore allowed in between. */
  function DropPrefix(s: string): string {
    if |s| < 2 || s[0] != '0' || (s[1] != 'x' && s[1] != 'X') then s
    else if |s| > 2 && s[2] == '_' then s[3..]
    else s[2..]
  }

  /** Digits, with single underscores between them. */
  predicate IsDigits(s: string) {
    && s != "" && s[0] != '_' && s[|s| - 1] != '_'
    && (forall i :: 0 <= i < |s| ==> IsHexDigit(s[i]) || s[i] == '_')
    && forall i :: 1 <= i < |s| ==> s[i - 1] != '_' || s[i] != '_'
  }

  /** None where Python raises a ValueError. */
  function ParseInt(s: string): Option<int> {
    ParseNumber(StripRight(StripLeft(s)))
  }

  function ParseNumber(t: string): Option<int> {
    var digits := DropPrefix(if HasSign(t) then t[1..] else t);
    if !IsDigits(digits) then None
    else Some(if HasSign(t) && t[0] == '-' then -(HexValue(digits) as int) else HexValue(digits))
  }

  predicate IsInt(s: string) {
    ParseInt(s).Some?
  }

  function IntValue(s: string): int
    requires IsInt(s)
  {
    ParseInt(s).value
  }

  /** A non-empty string of hexadecimal digits and nothing else. */
  predicate IsHex(s: string) {
    s != "" && forall i :: 0 <= i < |s| ==> IsHexDigit(s[i])
  }

  /** Plain digits are accepted and stand for their value. */
  lemma PlainDigits(s: string)
    requires IsHex(s)
    ensures ParseInt(s) == Some(HexValue(s))
  {
    assert !IsSpace(s[0]) && !IsSpace(s[|s| - 1]) && !HasSign(s);
    assert StripRight(StripLeft(s)) == s;
    assert |s| > 1 ==> IsHexDigit(s[1]);
    assert DropPrefix(s) == s;
  }

  lemma OneAndTwo()
    ensures IsInt("1") && IntValue("1") == 1 && IsInt("2") && IntValue("2") == 2
  {
    PlainDigits("1");
    PlainDigits("2");
    assert "1"[..0] == "" && "2"[..0] == "";
  }

  /** Zero can be spelled in more than one way. */
  lemma SpellingsOfZero()
    ensures IsHex("0") && IsInt("0") && IntValue("0") == 0
    ensures IsHex("00") && IsInt("00") && IntValue("00") == 0
  {
    PlainDigits("0");
    PlainDigits("00");
    assert "0"[..0] == "" && "00"[..1] == "0";
  }

  // ---- What number a spelling stands for ----

  /** Positional notation: digits put behind others count sixteen times less per place. */
  lemma DigitsBehind(a: string, b: string, x: int, y: int)
    requires IsHex(a) && IsHex(b) && ParseInt(a) == Some(x) && ParseInt(b) == Some(y)
    ensures ParseInt(a + b) == Some(x * Pow2(4 * |b|) + y)
  {
    hide ParseInt;
    PlainDigits(a);
    PlainDigits(b);
    PlainDigits(a + b);
    ValueBehind(a, b);
  }

  lemma {:induction false} ValueBehind(a: string, b: string)
    requires forall i :: 0 <= i < |b| ==> IsHexDigit(b[i])
    ensures HexValue(a + b) == HexValue(a) * Pow2(4 * |b|) + HexValue(b)
  {
    if b == "" {
      assert a + b == a;
    } else {
      var n := |b| - 1;
      assert (a + b)[..|a| + n] == a + b[..n];
      ValueBehind(a, b[..n]);
      FourMore(4 * n);
      assert 4 * |b| == 4 * n + 4;
      SixteenTimes(HexValue(a), Pow2(4 * n));
    }
  }

  lemma FourMore(n: nat)
    ensures Pow2(n + 4) == 16 * Pow2(n)
  {
    assert Pow2(n + 4) == 2 * Pow2(n + 3) && Pow2(n + 3) == 2 * Pow2(n + 2) && Pow2(n + 2) == 2 * Pow2(n + 1);
  }

  lemma SixteenTimes(x: nat, p: nat)
    ensures 16 * (x * p) == x * (16 * p)
  {
  }

  /** The digits, in both cases. */
  lemma DigitCharacters()
    ensures forall c :: '0' <= c <= '9' ==> ParseInt([c]) == Some((c - '0') as int)
    ensures ParseInt("a") == Some(10) && ParseInt("A") == Some(10)
    ensures ParseInt("b") == Some(11) && ParseInt("B") == Some(11)
    ensures ParseInt("c") == Some(12) && ParseInt("C") == Some(12)
    ensures ParseInt("d") == Some(13) && ParseInt("D") == Some(13)
    ensures ParseInt("e") == Some(14) && ParseInt("E") == Some(14)
    ensures ParseInt("f") == Some(15) && ParseInt("F") == Some(15)
  {
    hide ParseInt;
    forall c | '0' <= c <= '9'
      ensures ParseInt([c]) == Some((c - '0') as int)
    {
      OneDigit(c);
    }
    OneDigit('a'); OneDigit('b'); OneDigit('c'); OneDigit('d'); OneDigit('e'); OneDigit('f');
    OneDigit('A'); OneDigit('B'); OneDigit('C'); OneDigit('D'); OneDigit('E'); OneDigit('F');
  }

  lemma OneDigit(c: char)
    requires IsHexDigit(c)
    ensures IsHex([c]) && ParseInt([c]) == Some(DigitValue(c))
  {
    hide ParseInt;
    PlainDigits([c]);
    assert [c][..0] == "";
  }

  /** Plain digits stand for zero exactly when every one of them is a zero. */
  lemma {:induction false} ZeroIffAllZeros(s: string)
    requires IsHex(s)
    ensures IsInt(s) && IntValue(s) >= 0
    ensures IntValue(s) == 0 <==> forall i :: 0 <= i < |s| ==> s[i] == '0'
  {
    hide ParseInt;
    var n := |s| - 1;
    var front, last := s[..n], [s[n]];
    PlainDigits(s);
    OneDigit(s[n]);
    assert s == front + last;
    if n > 0 {
      ZeroIffAllZeros(front);
      DigitsBehind(front, last, IntValue(front), DigitValue(s[n]));
      FourMore(0);
    }
  }

  // ---- The other accepted forms ----

  predicate AllSpaces(s: string) {
    forall i :: 0 <= i < |s| ==> IsSpace(s[i])
  }

  lemma {:induction false} StripBlanks(l: string, t: string, r: string)
    requires AllSpaces(l) && AllSpaces(r)
    requires t != "" && !IsSpace(t[0]) && !IsSpace(t[|t| - 1])
    ensures StripRight(StripLeft(l + t + r)) == t
    decreases |l| + |r|
  {
    var s := l + t + r;
    if l != "" {
      assert s[1..] == l[1..] + t + r;
      StripBlanks(l[1..], t, r);
    } else {
      assert s == t + r && StripLeft(s) == s;
      if r == "" {
        assert s == t;
      } else {
        assert s[..|s| - 1] == "" + t + r[..|r| - 1];
        StripBlanks("", t, r[..|r| - 1]);
      }
    }
  }

  predicate IsSign(s: string) {
    s == "" || s == "+" || s == "-"
  }

  predicate IsPrefix(s: string) {
    s == "" || s == "0x" || s == "0X" || s == "0x_" || s == "0X_"
  }

  lemma BlanksAround(l: string, t: string, r: string)
    requires AllSpaces(l) && AllSpaces(r)
    requires t != "" && !IsSpace(t[0]) && !IsSpace(t[|t| - 1])
    ensures ParseInt(l + t + r) == ParseNumber(t)
  {
    StripBlanks(l, t, r);
  }

  /** Tabulator, line ends, the four information separators and the space count as blanks. */
  lemma BlankCharacters(c: char, digits: string, x: int)
    requires '\t' <= c <= '\r' || '\U{1c}' <= c <= '\U{1f}' || c == ' '
    requires IsHex(digits) && ParseInt(digits) == Some(x)
    ensures ParseInt([c] + digits) == Some(x) && ParseInt(digits + [c]) == Some(x)
  {
    hide ParseInt, ParseNumber, HexValue;
    DigitIsNoSpace(digits[0]);
    DigitIsNoSpace(digits[|digits| - 1]);
    BlanksAround([c], digits, "");
    BlanksAround("", digits, [c]);
    BlanksAround("", digits, "");
    assert [c] + digits + "" == [c] + digits && "" + digits + [c] == digits + [c] && "" + digits + "" == digits;
  }

  /** Blanks around, a sign and a "0x" in front are accepted; only the minus sign changes the value. */
  lemma AcceptedForms(l: string, sign: string, prefix: string, digits: string, r: string, x: int)
    requires AllSpaces(l) && AllSpaces(r) && IsHex(digits) && ParseInt(digits) == Some(x)
    requires IsSign(sign) && IsPrefix(prefix)
    ensures ParseInt(l + (sign + prefix + digits) + r) == Some(if sign == "-" then -x else x)
  {
    hide HexValue, ParseInt, IsHex, DropPrefix, IsDigits, IsSpace, HasSign, IsSign, IsPrefix;
    PlainDigits(digits);
    var t, body := sign + prefix + digits, prefix + digits;
    Ends(sign, prefix, digits);
    BlanksAround(l, t, r);
    assert sign == "" ==> t == body;
    PrefixIsDropped(prefix, digits);
    HexIsDigits(digits);
  }

  lemma Ends(sign: string, prefix: string, digits: string)
    requires IsHex(digits)
    requires IsSign(sign) && IsPrefix(prefix)
    ensures var t := sign + prefix + digits;
            && t != "" && !IsSpace(t[0]) && !IsSpace(t[|t| - 1])
            && (HasSign(t) <==> sign != "") && (sign != "" ==> t[1..] == prefix + digits)
            && (HasSign(t) && t[0] == '-' <==> sign == "-")
  {
    var t := sign + prefix + digits;
    assert t[|t| - 1] == digits[|digits| - 1];
    assert IsHexDigit(digits[0]);
  }

  lemma PrefixIsDropped(prefix: string, digits: string)
    requires IsHex(digits) && IsPrefix(prefix)
    ensures DropPrefix(prefix + digits) == digits
  {
    var body := prefix + digits;
    if prefix == "" {
      assert body == digits;
      assert |digits| > 1 ==> IsHexDigit(digits[1]);
    } else if |prefix| == 2 {
      assert body[2..] == digits && body[2] == digits[0] && IsHexDigit(digits[0]);
    } else {
      assert body[3..] == digits;
    }
  }

  lemma HexIsDigits(s: string)
    requires IsHex(s)
    ensures IsDigits(s)
  {
  }

  /** A single underscore between digits does not count. */
  lemma UnderscoreBetweenDigits(a: string, b: string, x: int)
    requires IsHex(a) && IsHex(b) && ParseInt(a + b) == Some(x)
    ensures ParseInt(a + "_" + b) == Some(x)
  {
    hide ParseInt, HexValue, DropPrefix, IsDigits, IsSpace;
    var s := a + "_" + b;
    PlainDigits(a + b);
    assert s[0] == a[0] && s[|s| - 1] == b[|b| - 1];
    DigitIsNoSpace(s[0]);
    DigitIsNoSpace(s[|s| - 1]);
    BlanksAround("", s, "");
    assert "" + s + "" == s;
    assert s[1] == if |a| > 1 then a[1] else '_';
    NoPrefix(s);
    DigitsAround(a, b);
    ValueAround(a, b);
  }

  lemma DigitIsNoSpace(c: char)
    requires IsHexDigit(c)
    ensures !IsSpace(c) && c != '+' && c != '-'
  {
  }

  lemma NoPrefix(s: string)
    requires |s| >= 2 && (IsHexDigit(s[1]) || s[1] == '_')
    ensures DropPrefix(s) == s
  {
  }

  lemma DigitsAround(a: string, b: string)
    requires IsHex(a) && IsHex(b)
    ensures IsDigits(a + "_" + b)
  {
    var s := a + "_" + b;
    assert s[0] == a[0] && s[|s| - 1] == b[|b| - 1];
  }

  lemma ValueAround(a: string, b: string)
    requires IsHex(a) && IsHex(b)
    ensures HexValue(a + "_" + b) == HexValue(a + b)
  {
    ValueBehind(a + "_", b);
    assert (a + "_")[..|a|] == a;
    ValueBehind(a, b);
  }

  /** Nothing, a bare prefix, and an underscore in front, behind or doubled are refused. */
  lemma RefusedForms(a: string, b: string)
    requires IsHex(a) && IsHex(b)
    ensures !IsInt("") && !IsInt("0x") && !IsInt("0X")
    ensures !IsInt("_" + a) && !IsInt(a + "_") && !IsInt(a + "__" + b)
  {
    hide ParseInt, ParseNumber, HexValue;
    NothingIsRefused();
    Refused("0x", "");
    Refused("0X", "");
    var front, behind, doubled := "_" + a, a + "_", a + "__" + b;
    assert IsHexDigit(a[0]) && IsHexDigit(a[|a| - 1]) && IsHexDigit(b[|b| - 1]);
    Refused(front, front);
    assert behind[0] == a[0] && behind[1] == if |a| > 1 then a[1] else '_';
    Refused(behind, behind);
    assert doubled[0] == a[0] && doubled[1] == if |a| > 1 then a[1] else '_';
    assert doubled[|doubled| - 1] == b[|b| - 1];
    assert doubled[|a|] == '_' && doubled[|a| + 1] == '_';
    Refused(doubled, doubled);
  }

  lemma NothingIsRefused()
    ensures !IsInt("")
  {
  }

  lemma Refused(s: string, digits: string)
    requires s != "" && !IsSpace(s[0]) && !IsSpace(s[|s| - 1]) && !HasSign(s)
    requires DropPrefix(s) == digits && !IsDigits(digits)
    ensures !IsInt(s)
  {
    BlanksAround("", s, "");
    assert "" + s + "" == s;
  }

  /** A character that can occur in an accepted spelling. */
  predicate CanOccur(c: char) {
    || '0' <= c <= '9' || 'a' <= c <= 'f' || 'A' <= c <= 'F' || c == 'x' || c == 'X' || c == '_' || c == '+' || c == '-'
    || c == ' ' || '\t' <= c <= '\r' || '\U{1c}' <= c <= '\U{1f}'
  }

  /** Anything else is refused. */
  lemma OtherCharactersAreRefused(s: string, i: nat)
    requires i < |s| && !CanOccur(s[i])
    ensures !IsInt(s)
  {
    hide HexValue, CanOccur;
    StrippedKeeps(s, s[i]);
    var t := StripRight(StripLeft(s));
    var u := if HasSign(t) then t[1..] else t;
    var digits := DropPrefix(u);
    OccurrenceInNumber(t, s[i]);
    assert s[i] in digits;
    var k :| 0 <= k < |digits| && digits[k] == s[i];
    NoDigit(s[i]);
  }

  lemma NoDigit(c: char)
    requires !CanOccur(c)
    ensures !IsHexDigit(c) && c != '_' && !IsSpace(c)
  {
  }

  lemma OccurrenceInNumber(t: string, c: char)
    requires c in t && !CanOccur(c)
    ensures c in DropPrefix(if HasSign(t) then t[1..] else t)
  {
    var u := if HasSign(t) then t[1..] else t;
    assert HasSign(t) ==> t == [t[0]] + u;
    assert c in u;
    assert |u| >= 2 ==> u == [u[0], u[1]] + u[2..];
    assert |u| >= 3 ==> u[2..] == [u[2]] + u[3..];
  }

  lemma {:induction false} StrippedKeeps(s: string, c: char)
    requires c in s && !CanOccur(c)
    ensures c in StripRight(StripLeft(s))
    decreases |s|
  {
    NoDigit(c);
    if IsSpace(s[0]) {
      assert s == [s[0]] + s[1..];
      StrippedKeeps(s[1..], c);
    } else {
      StrippedRightKeeps(s, c);
    }
  }

  lemma {:induction false} StrippedRightKeeps(s: string, c: char)
    requires c in s && !CanOccur(c)
    ensures c in StripRight(s)
  {
    NoDigit(c);
    var n := |s| - 1;
    if IsSpace(s[n]) {
      assert s == s[..n] + [s[n]];
      StrippedRightKeeps(s[..n], c);
    }
  }
}
