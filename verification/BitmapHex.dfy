/**
 Bitmap<N>::toHexString: the words printed most significant first as 16 upper-case
 hexadecimal digits each, into a buffer that may be too small, with leading zero
 bytes then removed.
 */
module BitmapHex {
  import opened Basics
  import opened Bitmap

  type Digit = x: int | 0 <= x < 16

  function HexChar(d: Digit): char {
    "0123456789ABCDEF"[d]
  }

  function HexValue(c: char): Digit {
    if '0' <= c <= '9' then c as int - '0' as int
    else if 'A' <= c <= 'F' then c as int - 'A' as int + 10
    else 0
  }

  lemma HexCharValue(d: Digit)
    ensures HexValue(HexChar(d)) == d
  {
  }

  function Pow16(n: nat): (p: nat)
    ensures p > 0
  {
    if n == 0 then 1 else 16 * Pow16(n - 1)
  }

  /** Reading a hexadecimal string as a number. */
  function Read(s: string): nat {
    if s == "" then 0 else 16 * Read(s[..|s| - 1]) + HexValue(s[|s| - 1])
  }

  /** The last `n` hexadecimal digits of `w`, as `%0nX` prints them. */
  function Digits(w: nat, n: nat): (s: string)
    ensures |s| == n
  {
    if n == 0 then "" else Digits(w / 16, n - 1) + [HexChar(w % 16)]
  }

  /** The number a word array stands for, word 0 least significant. */
  function Value(ws: seq<nat>): nat {
    if ws == [] then 0 else ws[0] + Pow2(64) * Value(ws[1..])
  }

  /** All digits, word N-1 first. */
  function AllDigits(ws: seq<nat>): (s: string)
    ensures |s| == 16 * |ws|
  {
    if ws == [] then "" else AllDigits(ws[1..]) + Digits(ws[0], 16)
  }

  /** Drop leading zero bytes, but not the last byte. */
  function Strip(s: string): string {
    if |s| > 2 && HexValue(s[0]) == 0 && HexValue(s[1]) == 0 then Strip(s[2..]) else s
  }

  /** The string left in a buffer of `len` bytes. */
  function ToHexString(ws: seq<nat>, len: nat): string
    requires len > 0
  {
    Strip(AllDigits(ws)[..Min(len - 1, 16 * |ws|)])
  }

  // ----- the loops of the source -----

  /** `toHexString`, with the buffer as the string it holds. */
  method PrintHex(ws: seq<nat>, len: nat) returns (buf: string)
    requires len > 0
    ensures buf == ToHexString(ws, len)
  {
    buf := "";
    var remaining: nat := len;
    var i := |ws|;
    assert ws[i..] == [];
    while i > 0
      invariant 0 <= i <= |ws|
      invariant buf == AllDigits(ws[i..]) && remaining == len - |buf| && remaining > 0
    {
      i := i - 1;
      ghost var done := buf;
      var text := Digits(ws[i], 16);
      assert AllDigits(ws[i..]) == done + text by {
        assert ws[i..][1..] == ws[i + 1..];
      }
      if |text| >= remaining { // snprintf keeps one byte for the terminator
        buf := buf + text[..remaining - 1];
        TruncatedText(ws, i, done, text, len);
        buf := StripZeros(buf);
        return;
      }
      buf, remaining := buf + text, remaining - |text|;
    }
    assert ws[0..] == ws && AllDigits(ws)[..|AllDigits(ws)|] == AllDigits(ws);
    buf := StripZeros(buf);
  }

  method StripZeros(text: string) returns (r: string)
    ensures r == Strip(text)
  {
    var pos, shifts := 0, 0;
    assert text[0..] == text;
    while pos + 2 < |text|
      invariant pos == shifts <= |text|
      invariant Strip(text[pos..]) == Strip(text)
    {
      if 16 * HexValue(text[pos]) + HexValue(text[pos + 1]) > 0 {
        break;
      }
      assert text[pos..][2..] == text[pos + 2..];
      shifts, pos := shifts + 2, pos + 2;
    }
    r := text[shifts..];
  }

  lemma {:induction false} DigitsOfSuffix(ws: seq<nat>, i: nat)
    requires i <= |ws|
    ensures |AllDigits(ws[i..])| <= |AllDigits(ws)| && AllDigits(ws)[..|AllDigits(ws[i..])|] == AllDigits(ws[i..])
  {
    if i == 0 {
      assert ws[0..] == ws;
    } else {
      DigitsOfSuffix(ws[1..], i - 1);
      assert ws[1..][i - 1..] == ws[i..];
    }
  }

  lemma TruncatedText(ws: seq<nat>, i: nat, done: string, text: string, len: nat)
    requires i < |ws| && |text| == 16 && AllDigits(ws[i..]) == done + text
    requires |done| < len <= |done| + 16
    ensures done + text[..len - |done| - 1] == AllDigits(ws)[..Min(len - 1, 16 * |ws|)]
  {
    hide AllDigits;
    DigitsOfSuffix(ws, i);
    PrefixCut(AllDigits(ws), done, text, len);
  }

  lemma PrefixCut(all: string, done: string, text: string, len: nat)
    requires |done + text| <= |all| && all[..|done + text|] == done + text
    requires |done| < len <= |done| + |text|
    ensures done + text[..len - |done| - 1] == all[..len - 1]
  {
    assert all[..len - 1] == all[..|done + text|][..len - 1] == (done + text)[..len - 1];
  }

  // ----- reading back -----

  lemma {:induction false} ReadConcat(a: string, b: string)
    ensures Read(a + b) == Read(a) * Pow16(|b|) + Read(b)
  {
    if b == "" {
      assert a + b == a;
    } else {
      var front, last := b[..|b| - 1], b[|b| - 1];
      ReadConcat(a, front);
      assert (a + b)[..|a + b| - 1] == a + front && (a + b)[|a + b| - 1] == last;
      Distribute(Read(a), Pow16(|front|), Read(front));
    }
  }

  lemma Commute(x: nat, y: nat)
    ensures x * y == y * x
  {
  }

  lemma Distribute(x: nat, p: nat, y: nat)
    ensures 16 * (x * p + y) == x * (16 * p) + 16 * y
  {
  }

  lemma {:induction false} ReadBelow(s: string)
    ensures Read(s) < Pow16(|s|)
  {
    if s != "" {
      ReadBelow(s[..|s| - 1]);
    }
  }

  lemma ReadSnoc(s: string, c: char)
    ensures Read(s + [c]) == 16 * Read(s) + HexValue(c)
  {
    assert (s + [c])[..|s + [c]| - 1] == s;
  }

  lemma {:induction false} ReadDigits(w: nat, n: nat)
    requires w < Pow16(n)
    ensures Read(Digits(w, n)) == w
  {
    if n > 0 {
      ReadDigits(w / 16, n - 1);
      HexCharValue(w % 16);
      var high := Digits(w / 16, n - 1);
      ReadSnoc(high, HexChar(w % 16));
      hide Read, HexChar, HexValue, Pow16;
      assert Digits(w, n) == high + [HexChar(w % 16)];
    }
  }

  lemma {:induction false} Pow16IsPow2(n: nat)
    ensures Pow16(n) == Pow2(4 * n)
  {
    if n > 0 {
      Pow16IsPow2(n - 1);
      var m := 4 * (n - 1);
      assert Pow2(m + 1) == 2 * Pow2(m) && Pow2(m + 2) == 2 * Pow2(m + 1);
      assert Pow2(m + 3) == 2 * Pow2(m + 2) && Pow2(m + 4) == 2 * Pow2(m + 3);
      assert m + 4 == 4 * n;
    }
  }

  lemma {:induction false} ReadAllDigits(ws: seq<nat>)
    requires Words(ws)
    ensures Read(AllDigits(ws)) == Value(ws)
  {
    if ws != [] {
      hide Pow2, Pow16, Read, Digits;
      ReadAllDigits(ws[1..]);
      Pow16IsPow2(16);
      ReadDigits(ws[0], 16);
      ReadConcat(AllDigits(ws[1..]), Digits(ws[0], 16));
      Commute(Value(ws[1..]), Pow2(64));
    }
  }

  lemma ZeroByte(s: string)
    requires |s| == 2 && HexValue(s[0]) == 0 && HexValue(s[1]) == 0
    ensures Read(s) == 0
  {
    assert s[..1] != "" && s[..1][..0] == "";
    assert Read(s[..1]) == 16 * Read(s[..1][..0]) + HexValue(s[0]);
  }

  lemma {:induction false} StripKeepsValue(s: string)
    ensures Read(Strip(s)) == Read(s)
  {
    if |s| > 2 && HexValue(s[0]) == 0 && HexValue(s[1]) == 0 {
      StripKeepsValue(s[2..]);
      assert s == s[..2] + s[2..];
      ReadConcat(s[..2], s[2..]);
      ZeroByte(s[..2]);
    }
  }

  /** Truncating a string divides the number it spells. */
  lemma ReadPrefix(s: string, k: nat)
    requires k <= |s|
    ensures Read(s[..k]) == Read(s) / Pow16(|s| - k)
  {
    hide Read, Pow16;
    assert s == s[..k] + s[k..];
    ReadConcat(s[..k], s[k..]);
    ReadBelow(s[k..]);
    var p := Pow16(|s| - k);
    Commute(Read(s[..k]), p);
    QuotientIs(Read(s), p, Read(s[..k]), Read(s[k..]));
  }

  /** For every bitmap and every non-empty buffer: the output spells the bitmap's
      value shifted right by the digits that did not fit. */
  lemma HexValueExact(ws: seq<nat>, len: nat)
    requires Words(ws) && len > 0
    ensures var kept := Min(len - 1, 16 * |ws|);
            Read(ToHexString(ws, len)) == Value(ws) / Pow16(16 * |ws| - kept)
  {
    var kept := Min(len - 1, 16 * |ws|);
    StripKeepsValue(AllDigits(ws)[..kept]);
    ReadPrefix(AllDigits(ws), kept);
    ReadAllDigits(ws);
  }

  /** Round trip: with room for all digits and the terminator the output spells
      the value exactly. */
  lemma HexRoundTrip(ws: seq<nat>, len: nat)
    requires Words(ws) && len >= 16 * |ws| + 1
    ensures Read(ToHexString(ws, len)) == Value(ws)
  {
    hide Read, Value, Strip;
    var all := AllDigits(ws);
    assert all[..Min(len - 1, 16 * |ws|)] == all;
    StripKeepsValue(all);
    ReadAllDigits(ws);
  }

  /** Shape of the output: whole bytes, at least one, and no leading zero byte
      unless it is the only one. */
  lemma HexShape(ws: seq<nat>, len: nat)
    requires |ws| > 0 && len >= 16 * |ws| + 1
    ensures var s := ToHexString(ws, len);
            && |s| % 2 == 0 && |s| >= 2
            && (|s| == 2 || HexValue(s[0]) != 0 || HexValue(s[1]) != 0)
  {
    StripShape(AllDigits(ws)[..Min(len - 1, 16 * |ws|)]);
  }

  lemma {:induction false} StripShape(s: string)
    requires |s| >= 2 && |s| % 2 == 0
    ensures var r := Strip(s);
            |r| % 2 == 0 && |r| >= 2 && (|r| == 2 || HexValue(r[0]) != 0 || HexValue(r[1]) != 0)
  {
    if |s| > 2 && HexValue(s[0]) == 0 && HexValue(s[1]) == 0 {
      StripShape(s[2..]);
    }
  }

  /** Values are told apart: two bitmaps of the same size print alike, in buffers
      that are large enough, exactly when they hold the same set. */
  lemma {:induction false} ValueInjective(a: seq<nat>, b: seq<nat>)
    requires |a| == |b| && Words(a) && Words(b)
    ensures Value(a) == Value(b) <==> a == b
  {
    if a != [] {
      ValueInjective(a[1..], b[1..]);
      var p := Pow2(64);
      QuotientIs(Value(a), p, Value(a[1..]), a[0]);
      QuotientIs(Value(b), p, Value(b[1..]), b[0]);
      assert a == [a[0]] + a[1..] && b == [b[0]] + b[1..];
    }
  }

  lemma HexTellsSetsApart(a: seq<nat>, b: seq<nat>, len: nat)
    requires |a| == |b| && Words(a) && Words(b) && len >= 16 * |a| + 1
    ensures ToHexString(a, len) == ToHexString(b, len) <==> Elements(a) == Elements(b)
  {
    HexRoundTrip(a, len);
    HexRoundTrip(b, len);
    ValueInjective(a, b);
    EqualIffSameElements(a, b);
  }
}
