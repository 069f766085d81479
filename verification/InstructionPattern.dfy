/** Matching instruction words against patterns of 0, 1 and ?, through a key, a mask and a shift. */
module InstructionPattern {
  import opened MachineWords

  type Pattern = s: string | ValidPattern(s) witness ""

  predicate ValidPattern(s: string) {
    forall i :: 0 <= i < |s| ==> s[i] in {'0', '1', '?', ' '}
  }

  /** The pattern without its spaces. */
  function Digits(s: string): (d: string)
    requires ValidPattern(s)
    ensures |d| <= |s| && forall i :: 0 <= i < |d| ==> d[i] in {'0', '1', '?'}
  {
    if s == "" then ""
    else
      var front := Digits(s[..|s| - 1]);
      if s[|s| - 1] == ' ' then front else front + [s[|s| - 1]]
  }

  /** Every fixed digit agrees with its bit; the last digit is bit 0. */
  predicate Agrees(w: nat, d: string) {
    d == "" || (var c := d[|d| - 1];
                (c == '1' ==> w % 2 == 1) && (c == '0' ==> w % 2 == 0) && Agrees(w / 2, d[..|d| - 1]))
  }

  function Key(d: string): (k: nat)
    ensures k < Pow2(|d|)
  {
    if d == "" then 0 else 2 * Key(d[..|d| - 1]) + (if d[|d| - 1] == '1' then 1 else 0)
  }

  function Mask(d: string): (m: nat)
    ensures m < Pow2(|d|)
  {
    if d == "" then 0 else 2 * Mask(d[..|d| - 1]) + (if d[|d| - 1] == '?' then 0 else 1)
  }

  /** The number of question marks at the end. */
  function Trailing(d: string): (n: nat)
    ensures n <= |d|
  {
    if d == "" || d[|d| - 1] != '?' then 0 else Trailing(d[..|d| - 1]) + 1
  }

  lemma {:induction false} MaskedIsKey(w: nat, d: string)
    requires forall i :: 0 <= i < |d| ==> d[i] in {'0', '1', '?'}
    ensures BitAnd(w, Mask(d)) == Key(d) <==> Agrees(w, d)
    decreases |d|
  {
    if d != "" {
      var front, c := d[..|d| - 1], d[|d| - 1];
      MaskedIsKey(w / 2, front);
      var m, k := Mask(front), Key(front);
      AndUnfold(w, 2 * m + (if c == '?' then 0 else 1));
      assert c in {'0', '1', '?'};
    } else {
      AndZero(w);
    }
  }

  /** Dropping the trailing question marks of key, mask and word changes nothing. */
  lemma {:induction false} ShiftedTest(w: nat, d: string)
    requires forall i :: 0 <= i < |d| ==> d[i] in {'0', '1', '?'}
    ensures BitAnd(Shr(w, Trailing(d)), Shr(Mask(d), Trailing(d))) == Shr(Key(d), Trailing(d)) <==> Agrees(w, d)
    decreases |d|
  {
    if d != "" && d[|d| - 1] == '?' {
      ShiftedTest(w / 2, d[..|d| - 1]);
    } else {
      MaskedIsKey(w, d);
    }
  }

  lemma TestExact(d: string)
    requires forall i :: 0 <= i < |d| ==> d[i] in {'0', '1', '?'}
    ensures forall w: nat ::
      BitAnd(Shr(w, Trailing(d)), Shr(Mask(d), Trailing(d))) == Shr(Key(d), Trailing(d)) <==> Agrees(w, d)
  {
    forall w: nat
      ensures BitAnd(Shr(w, Trailing(d)), Shr(Mask(d), Trailing(d))) == Shr(Key(d), Trailing(d)) <==> Agrees(w, d)
    {
      ShiftedTest(w, d);
    }
  }

  lemma OrBit(x: nat, b: nat)
    requires b < 2
    ensures BitOr(2 * x, b) == 2 * x + b
  {
    assert (2 * x) / 2 == x && (2 * x) % 2 == 0 && b / 2 == 0;
    assert BitOr(x, 0) == x;
  }

  lemma DigitsPrefix(s: string, i: nat)
    requires ValidPattern(s) && i < |s|
    ensures Digits(s[..i + 1]) == if s[i] == ' ' then Digits(s[..i]) else Digits(s[..i]) + [s[i]]
  {
    assert s[..i + 1][..i] == s[..i];
  }

  lemma SmallPower(n: nat)
    requires n < 63
    ensures 2 * Pow2(n) <= B64 / 2
  {
    Pow2Monotone(n, 62);
    Pow2Add(31, 31);
    Pow2Values();
  }

  /** `(x << 1) | b` on a 64-bit word whose top bit is clear. */
  function ShiftIn(x: Word64, b: nat): (r: Word64)
    requires b < 2 && x < B64 / 2
    ensures r == 2 * x + b
  {
    OrBit(x, b);
    BitOr(2 * x % B64, b)
  }

  lemma KeyStep(d: string, c: char)
    ensures Key(d + [c]) == 2 * Key(d) + (if c == '1' then 1 else 0)
    ensures Mask(d + [c]) == 2 * Mask(d) + (if c == '?' then 0 else 1)
    ensures Trailing(d + [c]) == if c == '?' then Trailing(d) + 1 else 0
  {
    assert (d + [c])[..|d|] == d;
  }

  lemma NoDigits()
    ensures Digits("") == "" && Key("") == 0 && Mask("") == 0 && Trailing("") == 0
  {
  }

  /** One more digit fits. */
  lemma Roomy(d: string)
    requires |d| < 63
    ensures Key(d) < B64 / 2 && Mask(d) < B64 / 2
  {
    SmallPower(|d|);
  }

  /** `pattern_decode` */
  method PatternDecode(str: Pattern) returns (key: Word64, mask: Word64, shift: nat)
    requires |str| < 64
    ensures forall w: nat :: BitAnd(Shr(w, shift), mask) == key <==> Agrees(w, Digits(str))
  {
    hide Agrees;
    hide BitAnd;
    hide BitOr;
    hide Shr;
    hide Pow2;
    hide Key;
    hide Mask;
    hide Trailing;
    hide Digits;
    NoDigits();
    assert str[..0] == "";
    var k: Word64, m: Word64, s: nat := 0, 0, 0;
    for i := 0 to |str|
      invariant k == Key(Digits(str[..i])) && m == Mask(Digits(str[..i])) && s == Trailing(Digits(str[..i]))
      invariant |Digits(str[..i])| <= i
    {
      ghost var d := Digits(str[..i]);
      DigitsPrefix(str, i);
      var c := str[i];
      if c != ' ' {
        KeyStep(d, c);
        Roomy(d);
        k := ShiftIn(k, if c == '1' then 1 else 0);
        m := ShiftIn(m, if c == '?' then 0 else 1);
        s := if c == '?' then s + 1 else 0;
      }
    }
    assert str[..|str|] == str;
    ShrShrinks(k, s);
    ShrShrinks(m, s);
    key, mask, shift := Shr(k, s), Shr(m, s), s;
    TestExact(Digits(str));
  }

  /** The chain of `INSTPAT` tests: the first pattern whose fixed bits agree decides. */
  method Dispatch(patterns: seq<Pattern>, inst: Word32) returns (found: nat)
    requires forall i :: 0 <= i < |patterns| ==> |patterns[i]| < 64
    ensures found <= |patterns|
    ensures forall i :: 0 <= i < found ==> !Agrees(inst, Digits(patterns[i]))
    ensures found < |patterns| ==> Agrees(inst, Digits(patterns[found]))
  {
    found := 0;
    while found < |patterns|
      invariant found <= |patterns|
      invariant forall i :: 0 <= i < found ==> !Agrees(inst, Digits(patterns[i]))
    {
      var key, mask, shift := PatternDecode(patterns[found]);
      if BitAnd(Shr(inst, shift), mask) == key {
        return;
      }
      found := found + 1;
    }
  }
}
