/** Vectors of words as hexadecimal text. */
module HexText {
  import opened Wrappers
  import opened BigInt
  import opened Bits
  import opened Words

  function Digit(d: nat): char
    requires d < 16
  {
    if d < 10 then '0' + d as char else 'a' + (d - 10) as char
  }

  /** Both cases are read. */
  function DigitValue(c: char): Option<nat> {
    if '0' <= c <= '9' then Some((c - '0') as nat)
    else if 'a' <= c <= 'f' then Some((c - 'a') as nat + 10)
    else if 'A' <= c <= 'F' then Some((c - 'A') as nat + 10)
    else None
  }

  /** The digits written, and those read. */
  lemma HexDigits(d: nat, c: char)
    requires d < 16
    ensures Digit(d) == "0123456789abcdef"[d]
    ensures DigitValue(c) == Some(d) <==> c == "0123456789abcdef"[d] || c == "0123456789ABCDEF"[d]
    ensures DigitValue(c).Some? <==> c in "0123456789abcdefABCDEF"
  {
  }

  predicate IsHex(s: string) {
    forall i | 0 <= i < |s| :: DigitValue(s[i]).Some?
  }

  /** What reading `s` makes of `acc`. */
  function Read(acc: nat, s: string): nat
    requires IsHex(s)
    decreases |s|
  {
    if s == "" then acc else Read(16 * acc + DigitValue(s[0]).value, s[1..])
  }

  /** A word without leading zeros, and one filled up to `n` digits. */
  function Hex(w: nat): string {
    if w < 16 then [Digit(w)] else Hex(w / 16) + [Digit(w % 16)]
  }

  function Padded(w: nat, n: nat): string {
    if n == 0 then "" else Padded(w / 16, n - 1) + [Digit(w % 16)]
  }

  /** The lower `i` words, from the top; leading words of zero are left out. */
  function TextFrom(ws: seq<Word>, i: nat, first: bool): string
    requires i <= |ws|
  {
    if i == 0 then if first then "0" else ""
    else if first && ws[i - 1] == 0 then TextFrom(ws, i - 1, true)
    else (if first then Hex(ws[i - 1]) else Padded(ws[i - 1], 16)) + TextFrom(ws, i - 1, false)
  }

  function Text(ws: seq<Word>): string {
    TextFrom(ws, |ws|, true)
  }

  lemma {:induction false} ReadAppend(acc: nat, s: string, t: string)
    requires IsHex(s) && IsHex(t)
    ensures IsHex(s + t) && Read(acc, s + t) == Read(Read(acc, s), t)
    decreases |s|
  {
    if s == "" {
      assert s + t == t;
    } else {
      assert (s + t)[1..] == s[1..] + t;
      ReadAppend(16 * acc + DigitValue(s[0]).value, s[1..], t);
    }
  }

  lemma ReadDigit(acc: nat, s: string, d: nat)
    requires IsHex(s) && d < 16
    ensures IsHex(s + [Digit(d)]) && Read(acc, s + [Digit(d)]) == 16 * Read(acc, s) + d
  {
    ReadAppend(acc, s, [Digit(d)]);
    assert [Digit(d)][1..] == "";
  }

  lemma {:induction false} HexIsRead(w: nat)
    ensures IsHex(Hex(w)) && Read(0, Hex(w)) == w
  {
    if w < 16 {
      ReadDigit(0, "", w);
      assert "" + [Digit(w)] == [Digit(w)];
    } else {
      HexIsRead(w / 16);
      ReadDigit(0, Hex(w / 16), w % 16);
    }
  }

  /** Filled-up digits continue a number that is not zero. */
  lemma {:induction false} HexContinues(v: nat, w: nat, n: nat)
    requires 0 < v && w < Pow2(4 * n)
    ensures Hex(v) + Padded(w, n) == Hex(Shl(v, 4 * n) + w)
    decreases n
  {
    if n == 0 {
      assert Hex(v) + "" == Hex(v);
    } else {
      Pow2Sum(4, 4 * (n - 1));
      assert Pow2(4) == 16;
      HexContinues(v, w / 16, n - 1);
      ShlSplits(v, n);
    }
  }

  lemma ShlSplits(v: nat, n: nat)
    requires n > 0
    ensures Shl(v, 4 * n) == 16 * Shl(v, 4 * (n - 1)) && Shl(v, 4 * (n - 1)) >= v
  {
    Pow2Sum(4, 4 * (n - 1));
    assert Pow2(4) == 16;
    TimesMonotone(1, Pow2(4 * (n - 1)), v);
    assert v * (16 * Pow2(4 * (n - 1))) == 16 * (v * Pow2(4 * (n - 1)));
  }

  /** The words from the top, in a number. */
  function FromTop(ws: seq<Word>, i: nat, acc: nat): nat
    requires i <= |ws|
  {
    if i == 0 then acc else FromTop(ws, i - 1, Shl(acc, 64) + ws[i - 1])
  }

  lemma {:induction false} FromTopIsValue(ws: seq<Word>, i: nat)
    requires i <= |ws|
    ensures FromTop(ws, i, Value(ws[i..])) == Value(ws)
  {
    BaseIsPow2();
    if i == 0 {
      assert ws[0..] == ws;
    } else {
      assert ws[i - 1..][1..] == ws[i..];
      FromTopIsValue(ws, i - 1);
    }
  }

  lemma {:induction false} RestIsHex(ws: seq<Word>, i: nat, acc: nat)
    requires i <= |ws| && 0 < acc
    ensures Hex(acc) + TextFrom(ws, i, false) == Hex(FromTop(ws, i, acc))
    decreases i
  {
    if i == 0 {
      assert Hex(acc) + "" == Hex(acc);
    } else {
      var w := ws[i - 1];
      BaseIsPow2();
      HexContinues(acc, w, 16);
      RestIsHex(ws, i - 1, Shl(acc, 64) + w);
      Grouped(Hex(acc), Padded(w, 16), TextFrom(ws, i - 1, false));
    }
  }

  lemma {:induction false} TextIsHex(ws: seq<Word>, i: nat)
    requires i <= |ws|
    ensures TextFrom(ws, i, true) == Hex(FromTop(ws, i, 0))
  {
    if i > 0 {
      assert Shl(0, 64) == 0;
      if ws[i - 1] == 0 { TextIsHex(ws, i - 1); } else { RestIsHex(ws, i - 1, ws[i - 1]); }
    }
  }

  lemma Grouped(a: string, b: string, c: string)
    ensures a + (b + c) == a + b + c
  {
  }

  /** However many words there are, and however many of zero on top, what is printed is the number
      in hexadecimal without leading zeros, and reading it gives the number back. */
  lemma TextRoundTrip(ws: seq<Word>)
    ensures Text(ws) == Hex(Value(ws)) && IsHex(Text(ws)) && Read(0, Text(ws)) == Value(ws)
  {
    TextIsHex(ws, |ws|);
    FromTopIsValue(ws, |ws|);
    HexIsRead(Value(ws));
  }
}
