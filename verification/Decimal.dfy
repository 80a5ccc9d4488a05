/** Decimal text of integers: Python's str(n) and, for ASCII text, int(s). */
module Decimal {
  import opened Wrappers
  import opened Bytes

  predicate IsDigit(c: byte) {
    '0' <= c <= '9'
  }

  function Digit(d: nat): (c: byte)
    requires d < 10
    ensures IsDigit(c) && DigitValue(c) == d
  {
    ('0' as int + d) as char
  }

  function DigitValue(c: byte): (d: nat)
    requires IsDigit(c)
    ensures d < 10
  {
    c as int - '0' as int
  }

  function StrNat(n: nat): (s: bytes)
    ensures s != [] && forall i :: 0 <= i < |s| ==> IsDigit(s[i])
  {
    if n < 10 then [Digit(n)] else StrNat(n / 10) + [Digit(n % 10)]
  }

  /** str(n) */
  function Str(n: int): (s: bytes)
    ensures s != [] && !HasCrOrLf(s) && ' ' !in s && ':' !in s
  {
    if n < 0 then "-" + StrNat(-n) else StrNat(n)
  }

  lemma DigitsAreThese()
    ensures forall c :: IsDigit(c) <==> c in "0123456789"
    ensures forall d: nat :: d < 10 ==> Digit(d) == "0123456789"[d] && DigitValue("0123456789"[d]) == d
  {
    forall c ensures IsDigit(c) <==> c in "0123456789" {
      if IsDigit(c) {
        assert c == "0123456789"[c as int - '0' as int];
      }
    }
  }

  /** The numeral of n is that of n / 10 followed by the digit n % 10; negative numbers have a minus sign. */
  lemma StrIsDecimal(n: int, d: int)
    requires 0 <= n && 0 <= d < 10
    ensures Str(d) == ["0123456789"[d]]
    ensures n > 0 ==> Str(10 * n + d) == Str(n) + ["0123456789"[d]] && Str(-n) == "-" + Str(n)
  {
    DigitsAreThese();
    assert (10 * n + d) / 10 == n && (10 * n + d) % 10 == d;
  }

  /** The white space that int() skips at both ends. */
  predicate IsIntSpace(c: byte) {
    c == ' ' || 9 <= c as int <= 13
  }

  /** Digits, with single underscores allowed between them. */
  function ReadDigits(s: bytes): Option<nat> {
    if s == [] || !IsDigit(s[|s| - 1]) then None
    else
      var n, d := |s| - 1, DigitValue(s[|s| - 1]);
      if n == 0 then Some(d)
      else
        var high := ReadDigits(if s[n - 1] == '_' then s[..n - 1] else s[..n]);
        if high.None? then None else Some(10 * high.value + d)
  }

  /** int(s) on ASCII text; None is the ValueError. */
  function ReadInt(s: bytes): Option<int> {
    var t := Strip(s, IsIntSpace);
    if t != [] && (t[0] == '-' || t[0] == '+') then
      var magnitude := ReadDigits(t[1..]);
      if magnitude.None? then None else Some(if t[0] == '-' then -(magnitude.value as int) else magnitude.value)
    else
      var magnitude := ReadDigits(t);
      if magnitude.None? then None else Some(magnitude.value)
  }

  lemma {:induction false} ReadDigitsOfStr(n: nat)
    ensures ReadDigits(StrNat(n)) == Some(n)
  {
    if n >= 10 {
      ReadDigitsOfStr(n / 10);
      var s := StrNat(n);
      assert s[..|s| - 1] == StrNat(n / 10);
      assert IsDigit(StrNat(n / 10)[|s| - 2]);
    }
  }

  /** Reading back what was printed, for every integer. */
  lemma ReadIntOfStr(n: int)
    ensures ReadInt(Str(n)) == Some(n)
  {
    NothingToStrip(Str(n), IsIntSpace);
    ReadDigitsOfStr(if n < 0 then -n else n);
    if n < 0 {
      assert Str(n)[1..] == StrNat(-n);
    }
  }

  /** Digits with single underscores strictly between them. */
  predicate WellPlaced(s: bytes) {
    && s != [] && IsDigit(s[0]) && IsDigit(s[|s| - 1])
    && (forall i :: 0 <= i < |s| ==> IsDigit(s[i]) || s[i] == '_')
    && (forall i :: 0 < i < |s| ==> IsDigit(s[i]) || IsDigit(s[i - 1]))
  }

  /** Exactly the well-placed texts are read. */
  lemma {:induction false} ReadsExactlyWellPlaced(s: bytes)
    ensures ReadDigits(s).Some? <==> WellPlaced(s)
    decreases |s|
  {
    if |s| > 1 && IsDigit(s[|s| - 1]) {
      var n := |s| - 1;
      if s[n - 1] == '_' {
        ReadsExactlyWellPlaced(s[..n - 1]);
        AddUnderscore(s[..n - 1], s);
      } else {
        ReadsExactlyWellPlaced(s[..n]);
        AddDigit(s[..n], s);
      }
    }
  }

  lemma AddDigit(high: bytes, s: bytes)
    requires high != [] && |s| == |high| + 1 && s[..|high|] == high && IsDigit(s[|high|]) && s[|high| - 1] != '_'
    ensures WellPlaced(s) <==> WellPlaced(high)
  {
    assert forall i :: 0 <= i < |high| ==> s[i] == high[i];
  }

  lemma AddUnderscore(high: bytes, s: bytes)
    requires |s| == |high| + 2 && s[..|high|] == high && s[|high|] == '_' && IsDigit(s[|high| + 1])
    ensures WellPlaced(s) <==> WellPlaced(high)
  {
    assert forall i :: 0 <= i < |high| ==> s[i] == high[i];
    if WellPlaced(s) {
      assert IsDigit(s[|high|]) || IsDigit(s[|high| - 1]);
    }
  }

  /** Printing what was read gives back every numeral without leading zero or underscore. */
  lemma {:induction false} StrOfReadDigits(s: bytes)
    requires s != [] && (forall i :: 0 <= i < |s| ==> IsDigit(s[i])) && (s[0] == '0' ==> |s| == 1)
    ensures ReadDigits(s).Some? && StrNat(ReadDigits(s).value) == s && (s[0] != '0' ==> ReadDigits(s).value > 0)
    decreases |s|
  {
    var n := |s| - 1;
    if n > 0 {
      StrOfReadDigits(s[..n]);
      var high, d := ReadDigits(s[..n]).value, DigitValue(s[n]);
      assert (10 * high + d) / 10 == high && (10 * high + d) % 10 == d;
      assert s == s[..n] + [s[n]];
    }
  }

  // ---------- the texts that int() reads ----------

  function Pow10(n: nat): (p: nat)
    ensures p > 0
  {
    if n == 0 then 1 else 10 * Pow10(n - 1)
  }

  /** The digits of a text, without its underscores. */
  function DigitsOf(s: bytes): (ds: bytes)
    ensures |ds| <= |s| && forall i :: 0 <= i < |ds| ==> IsDigit(ds[i])
  {
    if s == [] then [] else (if IsDigit(s[0]) then [s[0]] else []) + DigitsOf(s[1..])
  }

  /** The positional value: each digit times the power of ten of its place. */
  function Positional(ds: bytes): nat
    requires forall i :: 0 <= i < |ds| ==> IsDigit(ds[i])
  {
    if ds == [] then 0 else DigitValue(ds[0]) * Pow10(|ds| - 1) + Positional(ds[1..])
  }

  /** The six blanks of ASCII text. */
  predicate AllBlank(s: bytes) {
    forall i :: 0 <= i < |s| ==> s[i] in [' ', '\t', '\n', 11 as char, 12 as char, '\r']
  }

  lemma BlankIsIntSpace(s: bytes)
    ensures AllBlank(s) <==> AllSpace(s, IsIntSpace)
  {
    forall c: byte ensures IsIntSpace(c) <==> c in [' ', '\t', '\n', 11 as char, 12 as char, '\r'] {
    }
  }

  /** White space, a sign or none, digits with single underscores between them, white space. */
  ghost predicate SpellsInteger(s: bytes, n: int) {
    exists front, sign, body, back ::
      s == front + (sign + body) + back && AllBlank(front) && AllBlank(back) &&
      sign in {"", "+", "-"} && WellPlaced(body) &&
      n == (if sign == "-" then -1 else 1) * Positional(DigitsOf(body))
  }

  lemma {:induction false} DigitsOfSnoc(s: bytes, c: byte)
    ensures DigitsOf(s + [c]) == DigitsOf(s) + if IsDigit(c) then [c] else []
  {
    if s == [] {
      assert s + [c] == [c] && [c][1..] == [];
    } else {
      assert (s + [c])[1..] == s[1..] + [c];
      DigitsOfSnoc(s[1..], c);
    }
  }

  lemma {:induction false} PositionalSnoc(ds: bytes, c: byte)
    requires IsDigit(c) && forall i :: 0 <= i < |ds| ==> IsDigit(ds[i])
    ensures forall i :: 0 <= i < |ds + [c]| ==> IsDigit((ds + [c])[i])
    ensures Positional(ds + [c]) == 10 * Positional(ds) + DigitValue(c)
  {
    var longer := ds + [c];
    if ds == [] {
      assert longer == [c] && [c][1..] == [];
    } else {
      assert longer[1..] == ds[1..] + [c] && longer[0] == ds[0];
      PositionalSnoc(ds[1..], c);
      TimesTen(DigitValue(ds[0]), Pow10(|ds| - 1));
      assert Pow10(|ds|) == 10 * Pow10(|ds| - 1);
    }
  }

  lemma TimesTen(d: nat, p: nat)
    ensures d * (10 * p) == 10 * (d * p)
  {
  }

  /** The value read is the positional value; leading zeros and underscores do not matter. */
  lemma {:induction false} ReadsPositional(s: bytes)
    requires ReadDigits(s).Some?
    ensures ReadDigits(s).value == Positional(DigitsOf(s))
    decreases |s|
  {
    var n := |s| - 1;
    assert s == s[..n] + [s[n]];
    DigitsOfSnoc(s[..n], s[n]);
    PositionalSnoc(DigitsOf(s[..n]), s[n]);
    if n == 0 {
      assert s[..n] == [];
    } else if s[n - 1] == '_' {
      assert s[..n] == s[..n - 1] + ['_'];
      DigitsOfSnoc(s[..n - 1], '_');
      assert DigitsOf(s[..n]) == DigitsOf(s[..n - 1]);
      ReadsPositional(s[..n - 1]);
    } else {
      ReadsPositional(s[..n]);
    }
  }

  /** int() reads exactly these texts, as these numbers. */
  lemma ReadsExactlyTheIntegers(s: bytes, n: int)
    ensures ReadInt(s) == Some(n) <==> SpellsInteger(s, n)
  {
    if SpellsInteger(s, n) {
      var front, sign, body, back :|
        s == front + (sign + body) + back && AllBlank(front) && AllBlank(back) &&
        sign in {"", "+", "-"} && WellPlaced(body) &&
        n == (if sign == "-" then -1 else 1) * Positional(DigitsOf(body));
      BlankIsIntSpace(front);
      BlankIsIntSpace(back);
      SpelledIsRead(front, sign, body, back);
    }
    if ReadInt(s) == Some(n) {
      ReadIsSpelled(s);
    }
  }

  lemma SpelledIsRead(front: bytes, sign: bytes, body: bytes, back: bytes)
    requires AllSpace(front, IsIntSpace) && AllSpace(back, IsIntSpace) && sign in {"", "+", "-"} && WellPlaced(body)
    ensures ReadInt(front + (sign + body) + back)
            == Some((if sign == "-" then -1 else 1) * Positional(DigitsOf(body)))
  {
    hide ReadDigits, Positional, DigitsOf, Strip;
    var t := sign + body;
    StripIgnoresPadding(front, t, back, IsIntSpace);
    NothingToStrip(t, IsIntSpace);
    ReadsExactlyWellPlaced(body);
    ReadsPositional(body);
    if sign == "" {
      assert t == body;
    } else {
      assert t[1..] == body;
    }
  }

  lemma ReadIsSpelled(s: bytes)
    requires ReadInt(s).Some?
    ensures SpellsInteger(s, ReadInt(s).value)
  {
    hide ReadDigits, Positional, DigitsOf, Strip, WellPlaced;
    var t := Strip(s, IsIntSpace);
    var front, back := StripSplits(s, IsIntSpace);
    BlankIsIntSpace(front);
    BlankIsIntSpace(back);
    var signed := t != [] && (t[0] == '-' || t[0] == '+');
    var sign, body := if signed then t[..1] else "", if signed then t[1..] else t;
    assert t == sign + body;
    ReadsExactlyWellPlaced(body);
    ReadsPositional(body);
    assert signed ==> sign == [t[0]];
    assert sign in {"", "+", "-"};
    assert s == front + (sign + body) + back;
  }
}
