/**
  The base-32 account names of contracts/eosiolib/types.hpp: up to twelve 5-bit
  symbols and a 4-bit one packed into a 64-bit word, high symbols first.
*/
module Names {
  import opened Lists
  import opened Bits

  const CHARMAP := ".12345abcdefghijklmnopqrstuvwxyz"

  type Symbol = x: nat | x < 32

  type Word = x: nat | x < 0x1_0000_0000_0000_0000

  function CharToSymbol(c: char): Symbol {
    if 'a' <= c <= 'z' then c as int - 'a' as int + 6
    else if '1' <= c <= '5' then c as int - '1' as int + 1
    else 0
  }

  predicate InAlphabet(c: char) {
    c == '.' || 'a' <= c <= 'z' || '1' <= c <= '5'
  }

  // ----- words as lists of symbols -----

  /** The number written by base-32 digits, most significant first. */
  function Pack(ss: seq<Symbol>): nat {
    if ss == [] then 0 else Pack(ss[..|ss| - 1]) * 32 + ss[|ss| - 1]
  }

  /** The `n` lowest base-32 digits of `x`, most significant first. */
  function Unpack(x: nat, n: nat): (ss: seq<Symbol>)
    ensures |ss| == n
  {
    if n == 0 then [] else Unpack(x / 32, n - 1) + [x % 32]
  }

  /** The word that holds twelve 5-bit symbols and the low four bits of a thirteenth. */
  function Encode(ss: seq<Symbol>): nat
    requires |ss| == 13
  {
    Pack(ss[..12]) * 16 + ss[12] % 16
  }

  function Decode(v: nat): (ss: seq<Symbol>)
    ensures |ss| == 13 && ss[12] < 16
  {
    Unpack(v / 16, 12) + [v % 16]
  }

  /** The first `n` characters of `s` as symbols, filled up with dots. */
  function Padded(s: string, n: nat): (ss: seq<Symbol>)
    ensures |ss| == n
  {
    seq(n, i requires 0 <= i < n => if i < |s| then CharToSymbol(s[i]) else 0)
  }

  /** The name a string stands for. */
  function NameOf(s: string): nat {
    Encode(Padded(s, 13))
  }

  lemma CharmapAt(x: Symbol)
    ensures CHARMAP[x] == if x == 0 then '.' else if x <= 5 then (x - 1 + '1' as int) as char
                          else (x - 6 + 'a' as int) as char
    ensures CharToSymbol(CHARMAP[x]) == x && InAlphabet(CHARMAP[x])
    ensures CHARMAP[x] == '.' <==> x == 0
  {
  }

  lemma SymbolChar(c: char)
    requires InAlphabet(c)
    ensures CHARMAP[CharToSymbol(c)] == c
    ensures CharToSymbol(c) == 0 <==> c == '.'
  {
    CharmapAt(CharToSymbol(c));
  }

  lemma {:induction false} PackBound(ss: seq<Symbol>)
    ensures Pack(ss) < Pow2(5 * |ss|)
  {
    if ss != [] {
      var n := |ss|;
      PackBound(ss[..n - 1]);
      Pow2Add(5, 5 * (n - 1));
      Pow2At64();
    }
  }

  lemma {:induction false} UnpackPack(ss: seq<Symbol>)
    ensures Unpack(Pack(ss), |ss|) == ss
  {
    if ss != [] {
      var n := |ss|;
      UnpackPack(ss[..n - 1]);
      assert Pack(ss) / 32 == Pack(ss[..n - 1]) && Pack(ss) % 32 == ss[n - 1];
    }
  }

  lemma {:induction false} PackUnpack(x: nat, n: nat)
    ensures Pack(Unpack(x, n)) == x % Pow2(5 * n)
  {
    if n > 0 {
      var u := Unpack(x, n);
      assert u[..n - 1] == Unpack(x / 32, n - 1);
      PackUnpack(x / 32, n - 1);
      Pow2Add(5, 5 * (n - 1));
      Pow2At64();
      DivModMul(x, 32, Pow2(5 * (n - 1)));
    } else {
      assert x % 1 == 0;
    }
  }

  /** A word is the encoding of its symbols. */
  lemma EncodeDecode(v: Word)
    ensures Encode(Decode(v)) == v
  {
    hide Pow2, Pack, Unpack;
    assert Decode(v)[..12] == Unpack(v / 16, 12);
    PackUnpack(v / 16, 12);
    Pow2Add(4, 60);
    Pow2At64();
    SmallMod(v / 16, Pow2(60));
  }

  /** The symbols of an encoding are the encoded ones, if the last one fits four bits. */
  lemma DecodeEncode(ss: seq<Symbol>)
    requires |ss| == 13 && ss[12] < 16
    ensures Decode(Encode(ss)) == ss
    ensures Encode(ss) < 0x1_0000_0000_0000_0000
  {
    UnpackPack(ss[..12]);
    PackBound(ss[..12]);
    Pow2Add(4, 60);
    Pow2At64();
    assert Encode(ss) / 16 == Pack(ss[..12]) && Encode(ss) % 16 == ss[12];
    assert ss == ss[..12] + [ss[12]];
  }

  // ----- the conversions -----

  /** Packs a string: the characters beyond the thirteenth and foreign characters count as dots. */
  method StringToName(s: string) returns (value: nat)
    ensures value == NameOf(s)
  {
    hide And, Or, Shl, Pow2;
    value := 0;
    ghost var ss := Padded(s, 13);
    for i := 0 to 13
      invariant value == if i == 13 then Encode(ss) else Pack(ss[..i]) * Pow2(64 - 5 * i)
    {
      var c: nat := if i < |s| && i <= 12 then CharToSymbol(s[i]) else 0;
      if i < 12 {
        AddSymbol(ss, i);
        c := And(c, 0x1f);
        c := Shl(c, 64 - 5 * (i + 1), 64);
      } else {
        AddLast(ss);
        c := And(c, 0x0f);
      }
      value := Or(value, c);
    }
  }

  lemma AddSymbol(ss: seq<Symbol>, i: nat)
    requires i < 12 <= |ss|
    ensures Or(Pack(ss[..i]) * Pow2(64 - 5 * i), Shl(And(ss[i], 0x1f), 64 - 5 * (i + 1), 64))
         == Pack(ss[..i + 1]) * Pow2(64 - 5 * (i + 1))
  {
    hide Or, Shl, And, Pack;
    AndLowMask5(ss[i]);
    ShiftIn(Pack(ss[..i]), ss[i], 59 - 5 * i);
    PackNext(ss, i);
  }

  lemma AddLast(ss: seq<Symbol>)
    requires |ss| == 13
    ensures Or(Pack(ss[..12]) * Pow2(4), And(ss[12], 0x0f)) == Encode(ss)
  {
    AndLowMask4(ss[12]);
    Pow2At64();
    hide Or, And, Pack;
    assert Low(Pack(ss[..12]) * 16, 4) == 0;
    OrLow(Pack(ss[..12]) * 16, ss[12] % 16, 4);
  }

  /** A symbol shifted into place fits the word. */
  lemma ShlFits(c: Symbol, k: nat)
    requires k + 5 <= 64
    ensures Shl(c, k, 64) == c * Pow2(k) < Pow2(k + 5)
  {
    hide Pow2;
    assert Pow2(k + 5) == 32 * Pow2(k) by { Pow2Add(5, k); Pow2At64(); }
    Pow2Mono(k + 5, 64);
    MulLess(c, 32, Pow2(k));
    SmallMod(c * Pow2(k), Pow2(64));
  }

  /** Adding a symbol below what is packed so far: no bit is lost by the shift and none is already set. */
  lemma ShiftIn(x: nat, c: Symbol, k: nat)
    requires k + 5 <= 64
    ensures Or(x * Pow2(k + 5), Shl(c, k, 64)) == (x * 32 + c) * Pow2(k)
  {
    hide Or, Shl;
    ShlFits(c, k);
    assert Low(x * Pow2(k + 5), k + 5) == 0 by { DivModUnique(x * Pow2(k + 5), Pow2(k + 5), x, 0); }
    OrLow(x * Pow2(k + 5), c * Pow2(k), k + 5);
    assert Pow2(k + 5) == 32 * Pow2(k) by { Pow2Add(5, k); Pow2At64(); }
    Distribute(x, c, Pow2(k));
  }

  lemma Distribute(x: nat, c: nat, p: nat)
    ensures x * (32 * p) + c * p == (x * 32 + c) * p
  {
  }

  lemma PackNext(ss: seq<Symbol>, i: nat)
    requires i < |ss|
    ensures Pack(ss[..i + 1]) == Pack(ss[..i]) * 32 + ss[i]
  {
    assert ss[..i + 1][..i] == ss[..i];
  }

  function Chars(ss: seq<Symbol>): (s: string)
    ensures |s| == |ss| && forall i :: 0 <= i < |ss| ==> s[i] == CHARMAP[ss[i]]
  {
    seq(|ss|, i requires 0 <= i < |ss| => CHARMAP[ss[i]])
  }

  function StripDots(s: string): string {
    if s != "" && s[|s| - 1] == '.' then StripDots(s[..|s| - 1]) else s
  }

  /** Trailing dots go, unless there is nothing else. */
  function TrimRightDots(s: string): string {
    if StripDots(s) == "" then s else StripDots(s)
  }

  /** What a name prints as. */
  function StringOf(v: nat): string {
    TrimRightDots(Chars(Decode(v)))
  }

  method ToString(value: nat) returns (s: string)
    ensures s == StringOf(value)
  {
    hide Decode, StripDots, And, Shr;
    var str := new char[13](_ => '.');
    var tmp := value;
    for i := 0 to 13
      invariant tmp == if i == 0 then value else ShiftedOut(value, i)
      invariant str[13 - i..] == Chars(Decode(value))[13 - i..]
    {
      NextSymbol(value, i);
      var index := And(tmp, if i == 0 then 0x0f else 0x1f);
      str[12 - i] := CHARMAP[index];
      tmp := Shr(tmp, if i == 0 then 4 else 5);
      assert str[12 - i..] == [str[12 - i]] + str[13 - i..];
      assert Chars(Decode(value))[12 - i..] == [CHARMAP[index]] + Chars(Decode(value))[13 - i..];
    }
    assert str[0..] == str[..] && Chars(Decode(value))[0..] == Chars(Decode(value));
    s := LastNotDot(str[..]);
  }

  /** `find_last_not_of` and `substr`. */
  method LastNotDot(str: string) returns (s: string)
    ensures s == TrimRightDots(str)
  {
    var last: nat := |str|;
    assert str[..last] == str;
    while last > 0 && str[last - 1] == '.'
      invariant last <= |str|
      invariant StripDots(str) == StripDots(str[..last])
    {
      assert str[..last][..last - 1] == str[..last - 1];
      last := last - 1;
    }
    s := if last > 0 then str[..last] else str;
  }

  /** The value once the `i` lowest symbols are shifted out. */
  function ShiftedOut(value: nat, i: nat): nat {
    if i <= 1 then value / 16 else ShiftedOut(value, i - 1) / 32
  }

  lemma {:induction false} UnpackShifted(value: nat, i: nat)
    requires 1 <= i <= 13
    ensures Unpack(value / 16, 12)[..13 - i] == Unpack(ShiftedOut(value, i), 13 - i)
  {
    if i > 1 {
      UnpackShifted(value, i - 1);
      var n := 13 - (i - 1);
      var u := Unpack(ShiftedOut(value, i - 1), n);
      assert Unpack(value / 16, 12)[..n][..n - 1] == Unpack(value / 16, 12)[..n - 1];
      assert u[..n - 1] == Unpack(ShiftedOut(value, i), n - 1);
    }
  }

  /** The symbol and the value of one round of the loop in `ToString`. */
  lemma NextSymbol(value: nat, i: nat)
    requires i < 13
    ensures var tmp := if i == 0 then value else ShiftedOut(value, i);
            && And(tmp, if i == 0 then 0x0f else 0x1f) == Decode(value)[12 - i]
            && Shr(tmp, if i == 0 then 4 else 5) == ShiftedOut(value, i + 1)
  {
    Pow2At64();
    hide And, Pow2;
    if i == 0 {
      AndLowMask4(value);
    } else {
      var tmp, n := ShiftedOut(value, i), 13 - i;
      AndLowMask5(tmp);
      UnpackShifted(value, i);
      assert Unpack(tmp, n)[n - 1] == tmp % 32;
      assert Unpack(value / 16, 12)[..n][n - 1] == Decode(value)[12 - i];
    }
  }

  // ----- round trips -----

  /** Trailing dots do not matter to the name. */
  lemma {:induction false} PaddedStrip(s: string, n: nat)
    ensures Padded(StripDots(s), n) == Padded(s, n)
  {
    if s != "" && s[|s| - 1] == '.' {
      PaddedStrip(s[..|s| - 1], n);
    }
  }

  lemma PaddedChars(ss: seq<Symbol>)
    ensures Padded(Chars(ss), |ss|) == ss
  {
    forall i | 0 <= i < |ss|
      ensures Padded(Chars(ss), |ss|)[i] == ss[i]
    {
      CharmapAt(ss[i]);
    }
  }

  /** Every word, printed and read back, is the same word. */
  lemma PrintThenParse(v: Word)
    ensures NameOf(StringOf(v)) == v
  {
    var s := Chars(Decode(v));
    PaddedStrip(s, 13);
    PaddedChars(Decode(v));
    EncodeDecode(v);
  }

  /** A string that fits a name: alphabet characters only, at most 13, the last one of the low 16 symbols. */
  predicate Fits(s: string) {
    && |s| <= 13
    && (forall i :: 0 <= i < |s| ==> InAlphabet(s[i]))
    && (|s| == 13 ==> CharToSymbol(s[12]) < 16)
  }

  predicate EndsInDot(s: string) {
    s != "" && s[|s| - 1] == '.'
  }

  /** A name as it is meant to be written. */
  predicate Canonical(s: string) {
    Fits(s) && s != "" && !EndsInDot(s)
  }

  function Dots(n: nat): (s: string)
    ensures |s| == n && forall i :: 0 <= i < n ==> s[i] == '.'
  {
    seq(n, _ => '.')
  }

  lemma {:induction false} StripDotsTail(s: string, n: nat)
    ensures StripDots(s + Dots(n)) == StripDots(s)
  {
    if n == 0 {
      assert s + Dots(n) == s;
    } else {
      var t := s + Dots(n);
      assert t[..|t| - 1] == s + Dots(n - 1);
      StripDotsTail(s, n - 1);
    }
  }

  lemma {:induction false} StripDotsFixed(s: string)
    ensures StripDots(s) == s <==> !EndsInDot(s)
    ensures |StripDots(s)| <= |s| && StripDots(s) == s[..|StripDots(s)|]
    ensures !EndsInDot(StripDots(s))
  {
    if EndsInDot(s) {
      StripDotsFixed(s[..|s| - 1]);
    }
  }

  /** The symbols of a string that fits, as characters again: the string and the dots that fill it up. */
  lemma CharsPadded(s: string)
    requires Fits(s)
    ensures Chars(Padded(s, 13)) == s + Dots(13 - |s|)
    ensures Padded(s, 13)[12] < 16
  {
    forall i | 0 <= i < |s|
      ensures CHARMAP[CharToSymbol(s[i])] == s[i]
    {
      SymbolChar(s[i]);
    }
    CharmapAt(0);
  }

  /** A string that fits and is not all dots is printed back without its trailing dots. */
  lemma ParseThenPrint(s: string)
    requires Fits(s)
    ensures StringOf(NameOf(s)) == if StripDots(s) == "" then Dots(13) else StripDots(s)
  {
    hide Decode, Encode, Padded, Chars, StripDots, CharToSymbol, InAlphabet;
    var t := s + Dots(13 - |s|);
    CharsPadded(s);
    DecodeEncode(Padded(s, 13));
    assert StringOf(NameOf(s)) == TrimRightDots(t);
    StripDotsTail(s, 13 - |s|);
    if StripDots(s) == "" {
      AllDots(s);
      assert t == Dots(13);
    }
  }

  lemma {:induction false} AllDots(s: string)
    requires StripDots(s) == ""
    ensures s == Dots(|s|)
  {
    if s != "" {
      AllDots(s[..|s| - 1]);
      assert s == s[..|s| - 1] + [s[|s| - 1]];
    }
  }

  /** A string survives being parsed and printed exactly when it is canonical, or thirteen dots. */
  lemma ParsePrintExactly(s: string)
    ensures StringOf(NameOf(s)) == s <==> Canonical(s) || s == Dots(13)
  {
    StripDotsFixed(s);
    if Fits(s) {
      ParseThenPrint(s);
      StripDotsTail("", 13);
      assert "" + Dots(13) == Dots(13);
      if StripDots(s) == "" { AllDots(s); }
    } else {
      StringOfFits(NameOf(s));
    }
  }

  /** What a character of a string comes back as: a foreign one as a dot, and at the thirteenth place, where only
      four bits are left, the letters from `k` on as the characters up to `j`. */
  function Kept(c: char, i: nat): char {
    if !InAlphabet(c) || (i == 12 && c == 'k') then '.'
    else if i < 12 || c < 'k' then c
    else if c <= 'p' then (c as int - 'l' as int + '1' as int) as char
    else (c as int - 'q' as int + 'a' as int) as char
  }

  /** The first thirteen characters as they come back, filled up with dots. */
  function Cleaned(s: string): (t: string)
    ensures |t| == 13
  {
    seq(13, i requires 0 <= i < 13 => if i < |s| then Kept(s[i], i) else '.')
  }

  lemma KeptSymbol(c: char, i: nat)
    requires i <= 12
    ensures InAlphabet(Kept(c, i))
    ensures CharToSymbol(Kept(c, i)) == if i < 12 then CharToSymbol(c) else CharToSymbol(c) % 16
  {
  }

  /** Any string whatever, parsed and printed: its first thirteen characters with everything foreign turned into
      dots, without the trailing ones. */
  lemma ParsePrintAny(s: string)
    ensures StringOf(NameOf(s)) == TrimRightDots(Cleaned(s))
  {
    hide CharToSymbol, InAlphabet, Kept, StripDots, Decode, Pack;
    var t := Cleaned(s);
    forall i | 0 <= i < 13
      ensures InAlphabet(t[i]) && Padded(t, 13)[i] == if i < 12 then Padded(s, 13)[i] else Padded(s, 13)[i] % 16
    {
      if i < |s| {
        KeptSymbol(s[i], i);
      } else {
        CharmapAt(0);
      }
    }
    assert Padded(t, 13)[..12] == Padded(s, 13)[..12];
    assert NameOf(t) == NameOf(s);
    ParseThenPrint(t);
    if StripDots(t) == "" {
      AllDots(t);
    }
  }

  /** Whatever is printed fits. */
  lemma StringOfFits(v: nat)
    ensures Fits(StringOf(v))
  {
    var ss := Decode(v);
    var s := Chars(ss);
    StripDotsFixed(s);
    forall i | 0 <= i < 13
      ensures InAlphabet(s[i]) && CharToSymbol(s[i]) == ss[i]
    {
      CharmapAt(ss[i]);
    }
  }

  // ----- order -----

  /** Alphabetical order of strings: character codes, and a proper prefix comes first. */
  predicate Before(s: string, t: string) {
    t != "" && (s == "" || s[0] < t[0] || (s[0] == t[0] && Before(s[1..], t[1..])))
  }

  /** The same order on lists of symbols of one length. */
  predicate Below(a: seq<Symbol>, b: seq<Symbol>)
    requires |a| == |b|
  {
    a != [] && (a[0] < b[0] || (a[0] == b[0] && Below(a[1..], b[1..])))
  }

  lemma {:induction false} PackFirst(ss: seq<Symbol>)
    requires ss != []
    ensures Pack(ss) == ss[0] * Pow2(5 * (|ss| - 1)) + Pack(ss[1..])
    decreases |ss|
  {
    var n := |ss|;
    if n > 1 {
      var init := ss[..n - 1];
      PackFirst(init);
      assert init[1..] == ss[1..][..n - 2];
      assert Pow2(5 * (n - 1)) == Pow2(5 * (n - 2)) * 32 by { Pow2Add(5 * (n - 2), 5); Pow2At64(); }
      Distribute32(ss[0], Pow2(5 * (n - 2)));
    }
  }

  lemma Distribute32(x: nat, p: nat)
    ensures x * p * 32 == x * (p * 32)
  {
  }

  /** Digits compare like the numbers they write. */
  lemma {:induction false} BelowIsLess(a: seq<Symbol>, b: seq<Symbol>)
    requires |a| == |b|
    ensures Below(a, b) <==> Pack(a) < Pack(b)
    ensures Pack(a) == Pack(b) <==> a == b
    decreases |a|
  {
    if a != [] {
      var p := Pow2(5 * (|a| - 1));
      PackFirst(a);
      PackFirst(b);
      PackBound(a[1..]);
      PackBound(b[1..]);
      BelowIsLess(a[1..], b[1..]);
      FirstDigitDecides(a[0], b[0], p, Pack(a[1..]), Pack(b[1..]));
      assert a == [a[0]] + a[1..] && b == [b[0]] + b[1..];
    }
  }

  lemma FirstDigitDecides(x: nat, y: nat, p: nat, r: nat, t: nat)
    requires r < p && t < p
    ensures x * p + r < y * p + t <==> x < y || (x == y && r < t)
    ensures x * p + r == y * p + t <==> x == y && r == t
  {
    MulMono(x + 1, y, p);
    MulMono(y + 1, x, p);
    assert (x + 1) * p == x * p + p && (y + 1) * p == y * p + p;
  }

  lemma {:induction false} BelowLast(a: seq<Symbol>, b: seq<Symbol>)
    requires |a| == |b| > 0
    ensures var n := |a| - 1;
            Below(a, b) <==> Below(a[..n], b[..n]) || (a[..n] == b[..n] && a[n] < b[n])
    decreases |a|
  {
    var n := |a| - 1;
    if n > 0 {
      BelowLast(a[1..], b[1..]);
      assert a[1..][..n - 1] == a[..n][1..] && b[1..][..n - 1] == b[..n][1..];
      assert a[..n] == [a[0]] + a[..n][1..] && b[..n] == [b[0]] + b[..n][1..];
    }
  }

  lemma EncodeOrder(a: seq<Symbol>, b: seq<Symbol>)
    requires |a| == |b| == 13 && a[12] < 16 && b[12] < 16
    ensures Below(a, b) <==> Encode(a) < Encode(b)
  {
    BelowLast(a, b);
    BelowIsLess(a[..12], b[..12]);
  }

  lemma CharOrder(c: char, d: char)
    requires InAlphabet(c) && InAlphabet(d)
    ensures c < d <==> CharToSymbol(c) < CharToSymbol(d)
    ensures c == d <==> CharToSymbol(c) == CharToSymbol(d)
  {
  }

  lemma PaddedFirst(s: string, n: nat)
    requires n > 0
    ensures Padded(s, n)[0] == (if s == "" then 0 else CharToSymbol(s[0]))
    ensures Padded(s, n)[1..] == Padded(if s == "" then "" else s[1..], n - 1)
  {
  }

  lemma {:induction false} DotsBelow(t: string, n: nat)
    requires t != "" && |t| <= n && !EndsInDot(t) && forall i :: 0 <= i < |t| ==> InAlphabet(t[i])
    ensures Below(Padded("", n), Padded(t, n))
    decreases n
  {
    PaddedFirst("", n);
    PaddedFirst(t, n);
    if t[0] == '.' {
      DotsBelow(t[1..], n - 1);
    } else {
      SymbolChar(t[0]);
    }
  }

  /** Strings without trailing dots compare like their symbols filled up to one length. */
  lemma {:induction false} PaddedOrder(s: string, t: string, n: nat)
    requires |s| <= n && |t| <= n && !EndsInDot(s) && !EndsInDot(t)
    requires forall i :: 0 <= i < |s| ==> InAlphabet(s[i])
    requires forall i :: 0 <= i < |t| ==> InAlphabet(t[i])
    ensures Before(s, t) <==> Below(Padded(s, n), Padded(t, n))
    decreases n
  {
    if n > 0 {
      PaddedFirst(s, n);
      PaddedFirst(t, n);
      if t == "" {
        PaddedOrder(if s == "" then "" else s[1..], "", n - 1);
      } else if s == "" {
        DotsBelow(t, n);
      } else {
        CharOrder(s[0], t[0]);
        PaddedOrder(s[1..], t[1..], n - 1);
      }
    }
  }

  /** Names compare as numbers exactly as their strings compare alphabetically. */
  lemma NameOrder(s: string, t: string)
    requires Fits(s) && !EndsInDot(s) && Fits(t) && !EndsInDot(t)
    ensures Before(s, t) <==> NameOf(s) < NameOf(t)
  {
    CharsPadded(s);
    CharsPadded(t);
    PaddedOrder(s, t, 13);
    EncodeOrder(Padded(s, 13), Padded(t, 13));
  }

  /** Different canonical strings are different names. */
  lemma NameInjective(s: string, t: string)
    requires Canonical(s) && Canonical(t) && NameOf(s) == NameOf(t)
    ensures s == t
  {
    ParsePrintExactly(s);
    ParsePrintExactly(t);
  }

  // ----- suffixes -----

  function Zeros(n: nat): (ss: seq<Symbol>)
    ensures |ss| == n && forall i :: 0 <= i < n ==> ss[i] == 0
  {
    seq(n, _ => 0)
  }

  function StripZeros(ss: seq<Symbol>): (t: seq<Symbol>)
    ensures |t| <= |ss|
    ensures t != [] ==> t[|t| - 1] != 0
  {
    if ss != [] && ss[|ss| - 1] == 0 then StripZeros(ss[..|ss| - 1]) else ss
  }

  /** The index of the last zero, or -1. */
  function LastZero(ss: seq<Symbol>): (d: int)
    ensures -1 <= d < |ss|
    ensures d >= 0 ==> ss[d] == 0
  {
    if ss == [] then -1
    else if ss[|ss| - 1] == 0 then |ss| - 1
    else LastZero(ss[..|ss| - 1])
  }

  /** What follows the last zero, or everything. */
  function AfterZero(ss: seq<Symbol>): seq<Symbol> {
    ss[LastZero(ss) + 1..]
  }

  /** What follows the last dot, or everything. */
  function AfterDot(s: string): string {
    if s == "" || s[|s| - 1] == '.' then ""
    else AfterDot(s[..|s| - 1]) + [s[|s| - 1]]
  }

  function FillUp(ss: seq<Symbol>): (t: seq<Symbol>)
    requires |ss| <= 13
    ensures |t| == 13
  {
    ss + Zeros(13 - |ss|)
  }

  /** The symbols after the last dot that another symbol follows. */
  function SuffixSymbols(ss: seq<Symbol>): (t: seq<Symbol>)
    requires |ss| == 13
    ensures |t| == 13
  {
    FillUp(AfterZero(StripZeros(ss)))
  }

  function SuffixOf(n: nat): nat {
    Encode(SuffixSymbols(Decode(n)))
  }

  /** How many bits of the word lie below symbol `d`; 0 stands for no symbol. */
  function BitsBelow(d: int): int {
    if d < 0 then 0 else 59 - 5 * d
  }

  /** The part of a name after its last dot, by scanning, masking and shifting the word. */
  method NameSuffix(n: Word) returns (r: nat)
    ensures r == SuffixOf(n)
  {
    hide And, Shr, Shl, Decode, Encode, LastZero, StripZeros, SuffixSymbols, Pow2, Zeros;
    ghost var ss := Decode(n);
    var afterLastDot, tmp := 0, 0;
    var bits := 59;
    ghost var i := 0;
    assert ss[..0] == [];
    NothingScanned();
    while bits >= 4
      invariant bits == 59 - 5 * i && 0 <= i <= 12
      invariant tmp == BitsBelow(LastZero(ss[..i]))
      invariant afterLastDot == BitsBelow(LastZero(StripZeros(ss[..i])))
    {
      SymbolAt(n, i);
      ScanSymbol(ss, i);
      var c := And(Shr(n, bits), 0x1f);
      if c == 0 {
        tmp := bits;
      } else {
        afterLastDot := tmp;
      }
      bits := bits - 5;
      i := i + 1;
    }
    ScanSymbol(ss, 12);
    assert ss[..13] == ss;
    LowSymbol(n);
    var thirteenth := And(n, 0x0f);
    if thirteenth != 0 {
      afterLastDot := tmp;
    }
    ghost var d := LastZero(StripZeros(ss));
    if afterLastDot == 0 {
      NoDot(n);
      return n;
    }
    SuffixSplit(ss, d);
    SuffixBits(n, d);
    MaskFits(afterLastDot);
    var mask := Shl(1, afterLastDot, 64) - 16;
    var shift := 64 - afterLastDot;
    r := (Shl(And(n, mask), shift, 64) + Shl(thirteenth, shift - 1, 64)) % 0x1_0000_0000_0000_0000;
  }

  lemma NothingScanned()
    ensures StripZeros([]) == [] && LastZero([]) == -1
  {
  }

  lemma ScanSymbol(ss: seq<Symbol>, i: nat)
    requires i < |ss|
    ensures LastZero(ss[..i + 1]) == if ss[i] == 0 then i else LastZero(ss[..i])
    ensures LastZero(StripZeros(ss[..i + 1]))
         == if ss[i] == 0 then LastZero(StripZeros(ss[..i])) else LastZero(ss[..i])
  {
    assert ss[..i + 1][..i] == ss[..i];
  }

  lemma {:induction false} UnpackAt(x: nat, n: nat, i: nat)
    requires i < n
    ensures Unpack(x, n)[i] == x / Pow2(5 * (n - 1 - i)) % 32
  {
    if i < n - 1 {
      UnpackAt(x / 32, n - 1, i);
      var k := 5 * (n - 2 - i);
      assert Pow2(5 * (n - 1 - i)) == 32 * Pow2(k) by { Pow2Add(5, k); Pow2At64(); }
      DivModMul(x, 32, Pow2(k));
    }
  }

  /** Shifting right and masking reads one symbol. */
  lemma SymbolAt(n: nat, i: nat)
    requires i < 12
    ensures And(Shr(n, 59 - 5 * i), 0x1f) == Decode(n)[i]
  {
    var k := 5 * (11 - i);
    AndLowMask5(Shr(n, 59 - 5 * i));
    Pow2At64();
    hide And;
    UnpackAt(n / 16, 12, i);
    assert Pow2(59 - 5 * i) == 16 * Pow2(k) by { Pow2Add(4, k); }
    DivModMul(n, 16, Pow2(k));
  }

  lemma LowSymbol(n: nat)
    ensures And(n, 0x0f) == Decode(n)[12] == n % 16
  {
    AndLowMask4(n);
  }

  /** Without an inner dot the name is its own suffix. */
  lemma NoDot(n: Word)
    requires LastZero(StripZeros(Decode(n))) < 0
    ensures SuffixOf(n) == n
  {
    hide LastZero, StripZeros, Decode, Encode, SuffixSymbols;
    NoDotSymbols(Decode(n));
    EncodeDecode(n);
  }

  lemma NoDotSymbols(ss: seq<Symbol>)
    requires |ss| == 13 && LastZero(StripZeros(ss)) < 0
    ensures SuffixSymbols(ss) == ss
  {
    hide LastZero, StripZeros, Zeros;
    assert AfterZero(StripZeros(ss)) == StripZeros(ss);
    StrippedThenFilled(ss);
  }

  /** The suffix symbols are those after the last inner dot, moved to the front. */
  lemma SuffixSplit(ss: seq<Symbol>, d: int)
    requires |ss| == 13 && d == LastZero(StripZeros(ss)) >= 0
    ensures d <= 11 && SuffixSymbols(ss) == ss[d + 1..] + Zeros(d + 1)
  {
    hide LastZero, StripZeros, Zeros, FillUp;
    LastZeroInside(StripZeros(ss));
    FilledSuffix(ss, d + 1);
  }

  lemma LastZeroInside(t: seq<Symbol>)
    requires t != [] ==> t[|t| - 1] != 0
    ensures LastZero(t) < |t| - 1 || t == []
  {
    hide LastZero;
  }

  lemma FilledSuffix(ss: seq<Symbol>, d: nat)
    requires d <= |StripZeros(ss)| <= |ss| == 13
    ensures FillUp(StripZeros(ss)[d..]) == ss[d..] + Zeros(d)
  {
    hide Zeros, StripZeros;
    StrippedThenFilled(ss);
    MovedToFront(StripZeros(ss), 13 - |StripZeros(ss)|, d);
  }

  lemma {:induction false} StrippedThenFilled(ss: seq<Symbol>)
    ensures ss == StripZeros(ss) + Zeros(|ss| - |StripZeros(ss)|)
  {
    var k := |ss| - 1;
    if ss != [] && ss[k] == 0 {
      StrippedThenFilled(ss[..k]);
      var t := StripZeros(ss);
      assert Zeros(k - |t|) + [0] == Zeros(|ss| - |t|);
      assert ss == ss[..k] + [0] == t + Zeros(k - |t|) + [0];
    }
  }

  lemma {:induction false} NonZeroAfter(ss: seq<Symbol>, i: nat)
    requires LastZero(ss) < i < |ss|
    ensures ss[i] != 0
  {
    if i < |ss| - 1 {
      NonZeroAfter(ss[..|ss| - 1], i);
    }
  }

  lemma MovedToFront(t: seq<Symbol>, k: nat, d: nat)
    requires d <= |t|
    ensures (t + Zeros(k))[d..] + Zeros(d) == t[d..] + Zeros(k + d)
  {
    assert (t + Zeros(k))[d..] == t[d..] + Zeros(k);
    assert Zeros(k) + Zeros(d) == Zeros(k + d);
    assert t[d..] + Zeros(k) + Zeros(d) == t[d..] + (Zeros(k) + Zeros(d));
  }

  lemma {:induction false} UnpackLow(x: nat, n: nat, m: nat)
    requires m <= n
    ensures Unpack(x, n)[n - m..] == Unpack(x, m)
    decreases n
  {
    if m > 0 {
      UnpackLow(x / 32, n - 1, m - 1);
      var u := Unpack(x / 32, n - 1);
      assert (u + [x % 32])[n - m..] == u[n - m..] + [x % 32];
    }
  }

  lemma {:induction false} PackZeros(ss: seq<Symbol>, k: nat)
    ensures Pack(ss + Zeros(k)) == Pack(ss) * Pow2(5 * k)
  {
    if k == 0 {
      assert ss + Zeros(k) == ss;
    } else {
      var t := ss + Zeros(k);
      assert t[..|t| - 1] == ss + Zeros(k - 1);
      PackZeros(ss, k - 1);
      assert Pow2(5 * k) == Pow2(5 * (k - 1)) * 32 by { Pow2Add(5 * (k - 1), 5); Pow2At64(); }
      Distribute32(Pack(ss), Pow2(5 * (k - 1)));
    }
  }

  /** Masking keeps the symbols after symbol `d`, without the thirteenth. */
  lemma MaskedSymbols(n: nat, d: nat)
    requires d <= 11
    ensures Pow2(59 - 5 * d) >= 16
    ensures And(n, Pow2(59 - 5 * d) - 16) == Pack(Decode(n)[d + 1..12]) * 16
  {
    hide And, Pack, Unpack, Low;
    AndMask(n, 4, 59 - 5 * d);
    Pow2At64();
    LowSymbols(n, 11 - d);
    assert Decode(n)[d + 1..12] == Unpack(n / 16, 12)[d + 1..];
  }

  /** The low bits of a word are its last symbols. */
  lemma LowSymbols(n: nat, m: nat)
    requires m <= 12
    ensures Low(n, 4 + 5 * m) == Pack(Unpack(n / 16, 12)[12 - m..]) * 16 + Low(n, 4)
  {
    hide Pack, Unpack;
    assert Pow2(4 + 5 * m) == 16 * Pow2(5 * m) by { Pow2Add(4, 5 * m); Pow2At64(); }
    assert Pow2(4) == 16 by { Pow2At64(); }
    DivModMul(n, 16, Pow2(5 * m));
    PackUnpack(n / 16, m);
    UnpackLow(n / 16, 12, m);
  }

  /** The packed symbols after symbol `d`, with the thirteenth appended as a full symbol. */
  lemma EncodedSuffix(ss: seq<Symbol>, d: nat)
    requires |ss| == 13 && d <= 11
    ensures Encode(ss[d + 1..] + Zeros(d + 1)) == (Pack(ss[d + 1..12]) * 32 + ss[12]) * Pow2(4 + 5 * d)
  {
    hide Zeros;
    var front := ss[d + 1..];
    FrontTwelve(front, d);
    PackEnd(ss, d + 1);
    PackZeros(front, d);
    assert Pow2(4 + 5 * d) == Pow2(5 * d) * 16 by { Pow2Add(4, 5 * d); Pow2At64(); }
    Distribute16(Pack(front), Pow2(5 * d));
  }

  lemma FrontTwelve(front: seq<Symbol>, d: nat)
    requires |front| + d == 12
    ensures (front + Zeros(d + 1))[..12] == front + Zeros(d) && (front + Zeros(d + 1))[12] == 0
  {
  }

  lemma PackEnd(ss: seq<Symbol>, d: nat)
    requires |ss| == 13 && d <= 12
    ensures Pack(ss[d..]) == Pack(ss[d..12]) * 32 + ss[12]
  {
    var front := ss[d..];
    assert front[..|front| - 1] == ss[d..12];
  }

  lemma Distribute16(x: nat, p: nat)
    ensures x * p * 16 == x * (p * 16)
  {
  }

  /** The masked and shifted word, for the number of bits after a dot. */
  function SuffixWord(n: nat, bits: nat): nat
    requires 4 <= bits <= 59
  {
    MaskFits(bits);
    var mask := Shl(1, bits, 64) - 16;
    var shift := 64 - bits;
    (Shl(And(n, mask), shift, 64) + Shl(And(n, 0x0f), shift - 1, 64)) % 0x1_0000_0000_0000_0000
  }

  /** The two shifts put the suffix to the top of the word, losing no bit and overlapping nowhere. */
  lemma SuffixBits(n: Word, d: nat)
    requires d <= 11
    ensures SuffixWord(n, 59 - 5 * d) == Encode(Decode(n)[d + 1..] + Zeros(d + 1))
  {
    hide And, Shl, Pack, Pow2, Encode, Decode, Zeros;
    var ss := Decode(n);
    var x, c := Pack(ss[d + 1..12]), ss[12];
    PackBound(ss[d + 1..12]);
    ShiftedSum(x, c, d);
    EncodedSuffix(ss, d);
    MaskedSymbols(n, d);
    LowSymbol(n);
    OneShifted(59 - 5 * d);
    Pow2At64();
  }

  lemma MaskFits(bits: nat)
    requires 4 <= bits <= 59
    ensures Shl(1, bits, 64) >= 16
  {
    OneShifted(bits);
    Pow2Mono(4, bits);
    Pow2At64();
  }

  lemma OneShifted(k: nat)
    requires k < 64
    ensures Shl(1, k, 64) == Pow2(k)
  {
    Pow2Mono(k + 1, 64);
    assert Pow2(k) < Pow2(64);
    hide Pow2;
    SmallMod(1 * Pow2(k), Pow2(64));
  }

  lemma ShiftedSum(x: nat, c: nat, d: nat)
    requires d <= 11 && x < Pow2(55 - 5 * d) && c < 16
    ensures Shl(x * 16, 5 + 5 * d, 64) + Shl(c, 4 + 5 * d, 64) == (x * 32 + c) * Pow2(4 + 5 * d) < Pow2(64)
  {
    var p, q := Pow2(4 + 5 * d), Pow2(55 - 5 * d);
    assert Pow2(5 + 5 * d) == 2 * p;
    assert Pow2(64) == 32 * q * p by {
      Pow2Add(5, 55 - 5 * d);
      Pow2At64();
      Pow2Add(60 - 5 * d, 4 + 5 * d);
    }
    hide Pow2;
    SumFits(x, c, p, q);
    SmallMod(x * 16 * (2 * p), Pow2(64));
    SmallMod(c * p, Pow2(64));
  }

  lemma SumFits(x: nat, c: nat, p: nat, q: nat)
    requires x < q && c < 16 && p > 0
    ensures x * 16 * (2 * p) + c * p == (x * 32 + c) * p < 32 * q * p
    ensures x * 16 * (2 * p) >= 0 && c * p >= 0
  {
    MulLess(x * 32 + c, 32 * q, p);
  }

  /** On canonical names the word operation is the string operation. */
  lemma SuffixRefines(s: string)
    requires Canonical(s)
    ensures SuffixOf(NameOf(s)) == NameOf(AfterDot(s))
  {
    hide Decode, Encode, Padded, StripZeros, AfterZero, AfterDot, FillUp, InAlphabet, CharToSymbol;
    CharsPadded(s);
    DecodeEncode(Padded(s, 13));
    StripPadded(s, 13);
    AfterZeroPadded(s);
    AfterDotLength(s);
    FillPadded(AfterDot(s));
  }

  lemma FillPadded(s: string)
    requires |s| <= 13
    ensures FillUp(Padded(s, |s|)) == Padded(s, 13)
  {
  }

  lemma {:induction false} AfterDotLength(s: string)
    ensures |AfterDot(s)| <= |s|
  {
    if s != "" && s[|s| - 1] != '.' {
      AfterDotLength(s[..|s| - 1]);
    }
  }

  lemma {:induction false} StripPadded(s: string, n: nat)
    requires |s| <= n && s != "" && !EndsInDot(s) && InAlphabet(s[|s| - 1])
    ensures StripZeros(Padded(s, n)) == Padded(s, |s|)
    decreases n
  {
    if n == |s| {
      SymbolChar(s[|s| - 1]);
    } else {
      assert Padded(s, n)[..n - 1] == Padded(s, n - 1);
      StripPadded(s, n - 1);
    }
  }

  lemma PaddedSnoc(s: string, c: char)
    ensures Padded(s + [c], |s| + 1) == Padded(s, |s|) + [CharToSymbol(c)]
  {
    hide CharToSymbol;
  }

  lemma {:induction false} AfterZeroPadded(s: string)
    requires forall i :: 0 <= i < |s| ==> InAlphabet(s[i])
    ensures AfterZero(Padded(s, |s|)) == Padded(AfterDot(s), |AfterDot(s)|)
  {
    hide AfterZero, CharToSymbol, InAlphabet, Padded;
    if s == "" {
      NoSymbols();
    } else {
      var t, c := s[..|s| - 1], s[|s| - 1];
      assert s == t + [c];
      SymbolChar(c);
      AfterZeroPadded(t);
      PaddedSnoc(t, c);
      AfterZeroSnoc(Padded(t, |t|), CharToSymbol(c));
      PaddedSnoc(AfterDot(t), c);
      NoSymbols();
    }
  }

  lemma NoSymbols()
    ensures AfterZero([]) == [] && Padded("", 0) == []
  {
  }

  lemma AfterZeroSnoc(ss: seq<Symbol>, x: Symbol)
    ensures AfterZero(ss + [x]) == if x == 0 then [] else AfterZero(ss) + [x]
  {
    assert (ss + [x])[..|ss|] == ss;
  }

  /** Taking the suffix of a suffix changes nothing, on every word. */
  lemma SuffixIdempotent(n: Word)
    ensures SuffixOf(n) < 0x1_0000_0000_0000_0000
    ensures SuffixOf(SuffixOf(n)) == SuffixOf(n)
  {
    hide Decode, Encode, StripZeros, LastZero;
    var ss := Decode(n);
    var u := SuffixSymbols(ss);
    SuffixLow(ss);
    DecodeEncode(u);
    SuffixTwice(StripZeros(ss));
  }

  lemma SuffixTwice(t: seq<Symbol>)
    requires |t| <= 13 && (t == [] || t[|t| - 1] != 0)
    ensures AfterZero(StripZeros(FillUp(AfterZero(t)))) == AfterZero(t)
  {
    hide LastZero, StripZeros, Zeros;
    var v := AfterZero(t);
    assert v == [] || v[|v| - 1] == t[|t| - 1];
    StripFilled(v, 13 - |v|);
    if LastZero(v) >= 0 {
      NonZeroAfter(t, LastZero(t) + 1 + LastZero(v));
    }
    assert LastZero(v) == -1;
  }

  lemma SuffixLow(ss: seq<Symbol>)
    requires |ss| == 13 && ss[12] < 16
    ensures SuffixSymbols(ss)[12] < 16
  {
    hide LastZero, StripZeros;
    StrippedThenFilled(ss);
  }

  lemma {:induction false} StripFilled(t: seq<Symbol>, k: nat)
    requires t == [] || t[|t| - 1] != 0
    ensures StripZeros(t + Zeros(k)) == t
  {
    if k == 0 {
      assert t + Zeros(k) == t;
    } else {
      var u := t + Zeros(k);
      assert u[..|u| - 1] == t + Zeros(k - 1);
      StripFilled(t, k - 1);
    }
  }
}
