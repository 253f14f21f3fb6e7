// What the text functions accept and return, character by character: white space, case, numerals, hex and UTF-8.
module TextForms {
  import opened Rgw
  import opened Text

  // ------------------------------------------------------------- white space

  // Only the six ASCII characters that count as white space.
  predicate Blank(s: string) {
    forall i :: 0 <= i < |s| ==> s[i] == ' ' || 9 <= s[i] as int <= 13
  }

  // No white space at either end.
  predicate Bare(s: string) {
    s == "" || !(Blank(s[..1]) || Blank(s[|s| - 1..]))
  }

  lemma BlankIsSpace(s: string)
    ensures Blank(s) <==> AllSpace(s)
    ensures Bare(s) <==> Trimmed(s)
  {
  }

  lemma {:induction false} DropsTail(s: string, lo: nat, hi: nat, ws: string)
    requires lo <= hi <= |s| && |ws| <= hi - lo && s[hi - |ws|..hi] == ws && AllSpace(ws)
    requires hi - |ws| == lo || !IsSpace(s[hi - |ws| - 1])
    ensures DropSpaces(s, lo, hi) == hi - |ws|
    decreases |ws|
  {
    if ws != "" {
      assert s[hi - 1] == ws[|ws| - 1];
      var less := ws[..|ws| - 1];
      assert s[hi - 1 - |less|..hi - 1] == less;
      DropsTail(s, lo, hi - 1, less);
    }
  }

  // Trimming takes off white space at both ends and nothing else.
  lemma TrimOf(front: string, core: string, back: string)
    requires Blank(front) && Blank(back) && Bare(core)
    ensures Trim(front + core + back) == core
  {
    var s := front + core + back;
    BlankIsSpace(front);
    BlankIsSpace(back);
    BlankIsSpace(core);
    if core == "" {
      assert s == front + back && AllSpace(front + back);
      SkipsAll(front + back, "", 0);
      assert front + back + "" == s;
    } else {
      assert s == front + (core + back) && (core + back)[0] == core[0];
      SkipsAll(front, core + back, 0);
      assert s[|front| + |core|..] == back;
      assert s[|front| + |core| - 1] == core[|core| - 1];
      DropsTail(s, |front|, |s|, back);
    }
  }

  lemma {:induction false} SkipsBlank(s: string, lo: nat)
    requires lo <= |s|
    ensures AllSpace(s[lo..SkipSpaces(s, lo)])
    decreases |s| - lo
  {
    if lo < |s| && IsSpace(s[lo]) { SkipsBlank(s, lo + 1); }
  }

  lemma {:induction false} DropsBlank(s: string, lo: nat, hi: nat)
    requires lo <= hi <= |s|
    ensures AllSpace(s[DropSpaces(s, lo, hi)..hi])
    decreases hi
  {
    if lo < hi && IsSpace(s[hi - 1]) {
      var d := DropSpaces(s, lo, hi - 1);
      DropsBlank(s, lo, hi - 1);
      assert s[d..hi] == s[d..hi - 1] + [s[hi - 1]];
    }
  }

  lemma TrimParts(s: string) returns (front: string, back: string)
    ensures s == front + Trim(s) + back && Blank(front) && Blank(back) && Bare(Trim(s))
  {
    var lo := SkipSpaces(s, 0);
    var hi := DropSpaces(s, lo, |s|);
    front, back := s[..lo], s[hi..];
    SkipsBlank(s, 0);
    DropsBlank(s, lo, |s|);
    assert s[0..lo] == front && s[hi..|s|] == back;
    BlankIsSpace(front);
    BlankIsSpace(back);
    TrimTrims(s);
    BlankIsSpace(Trim(s));
  }

  // The text is `core` with white space around it.
  ghost predicate Padded(s: string, core: string) {
    exists front, back :: Blank(front) && Blank(back) && s == front + core + back
  }

  // Trimming finds the one core without white space at its ends.
  lemma TrimIs(s: string, core: string)
    ensures Trim(s) == core <==> Padded(s, core) && Bare(core)
  {
    hide Trim, Blank, Bare;
    var f, b := TrimParts(s);
    if front, back :| Blank(front) && Blank(back) && s == front + core + back {
      if Bare(core) { TrimOf(front, core, back); }
    }
  }

  // ------------------------------------------------------------- case

  const UPPER := "ABCDEFGHIJKLMNOPQRSTUVWXYZ"
  const LOWER := "abcdefghijklmnopqrstuvwxyz"

  lemma LetterAt(k: nat)
    requires k < 26
    ensures UPPER[k] as int == 65 + k && LOWER[k] as int == 97 + k
  {
  }

  // Lower-casing maps each of the 26 letters to its own and leaves every other character.
  lemma LowerLetters(s: string, i: nat)
    requires i < |s|
    ensures s[i] !in UPPER ==> Lower(s)[i] == s[i]
    ensures forall k :: 0 <= k < 26 && s[i] == UPPER[k] ==> Lower(s)[i] == LOWER[k]
  {
    if 'A' <= s[i] <= 'Z' { LetterAt(s[i] as int - 65); }
    forall k | 0 <= k < 26 && s[i] == UPPER[k] ensures Lower(s)[i] == LOWER[k] { LetterAt(k); }
  }

  // ------------------------------------------------------------- numerals

  predicate Decimal(s: string) {
    s != "" && forall i :: 0 <= i < |s| ==> '0' <= s[i] <= '9'
  }

  // The number a decimal numeral denotes.
  function DecNumber(s: string): int {
    if s == "" then 0 else 10 * DecNumber(s[..|s| - 1]) + (s[|s| - 1] as int - 48)
  }

  predicate IsHexDigit(c: char) {
    '0' <= c <= '9' || 'a' <= c <= 'f' || 'A' <= c <= 'F'
  }

  function HexOf(c: char): int {
    if '0' <= c <= '9' then c as int - 48 else if 'a' <= c <= 'f' then c as int - 87 else c as int - 55
  }

  predicate Hexadecimal(s: string) {
    s != "" && forall i :: 0 <= i < |s| ==> IsHexDigit(s[i])
  }

  function HexNumber(s: string): int {
    if s == "" then 0 else 16 * HexNumber(s[..|s| - 1]) + HexOf(s[|s| - 1])
  }

  lemma {:induction false} NumeralDec(s: string)
    ensures s != "" ==> (Numeral(s, 10).Some? <==> Decimal(s))
    ensures Numeral(s, 10).Some? ==> Numeral(s, 10).value == DecNumber(s)
    decreases |s|
  {
    if s != "" {
      var front := s[..|s| - 1];
      NumeralDec(front);
      assert s == front + [s[|s| - 1]];
    }
  }

  lemma {:induction false} NumeralHex(s: string)
    ensures s != "" ==> (Numeral(s, 16).Some? <==> Hexadecimal(s))
    ensures Numeral(s, 16).Some? ==> Numeral(s, 16).value == HexNumber(s)
    decreases |s|
  {
    if s != "" {
      var front := s[..|s| - 1];
      NumeralHex(front);
      assert s == front + [s[|s| - 1]];
    }
  }

  // A 64-bit number is read from decimal digits alone.
  lemma ParseU64Is(s: string, n: nat)
    ensures ParseU64(s) == Some(n) <==> Decimal(s) && DecNumber(s) == n && n < 0x1_0000_0000_0000_0000
  {
    NumeralDec(s);
  }

  // A size is read from hex digits of either case behind at most one plus sign.
  lemma ParseHexIs(s: string, n: nat)
    ensures ParseHex(s) == Some(n)
      <==> exists digits :: (s == digits || s == "+" + digits) && Hexadecimal(digits) && HexNumber(digits) == n
                            && n < 0x1_0000_0000_0000_0000
  {
    if |s| > 1 && s[0] == '+' {
      var digits := s[1..];
      NumeralHex(digits);
      assert s == "+" + digits && !Hexadecimal(s);
      assert forall d :: s == "+" + d ==> d == digits by {
        forall d | s == "+" + d ensures d == digits { assert ("+" + d)[1..] == d; }
      }
    } else {
      NumeralHex(s);
      assert forall d :: s == "+" + d ==> d == "";
    }
  }

  // A signed number: decimal digits behind at most one sign.
  ghost predicate Signed(s: string, digits: string, n: int) {
    && Decimal(digits) && -0x8000_0000_0000_0000 <= n < 0x8000_0000_0000_0000
    && (|| ((s == digits || s == "+" + digits) && n == DecNumber(digits))
        || (s == "-" + digits && n == -DecNumber(digits)))
  }

  lemma ParseI64Is(s: string, n: int)
    ensures ParseI64(s) == Some(n) <==> exists digits :: Signed(s, digits, n)
  {
    hide DecNumber, Numeral, Decimal;
    var own := if |s| > 1 && (s[0] == '+' || s[0] == '-') then s[1..] else s;
    NumeralDec(own);
    OneSign(s, own);
    forall digits | Signed(s, digits, n) ensures digits == own { SignedOwn(s, digits, n); }
    assert ParseI64(s) == Some(n) <==> Signed(s, own, n);
  }

  lemma OneSign(s: string, own: string)
    requires own == if |s| > 1 && (s[0] == '+' || s[0] == '-') then s[1..] else s
    ensures own != s ==> s == [s[0]] + own
    ensures own == s ==> s != "+" + own && s != "-" + own
    ensures own == s && |s| > 0 && (s[0] == '+' || s[0] == '-') ==> !Decimal(own)
    ensures !Decimal("")
  {
  }

  lemma SignedOwn(s: string, digits: string, n: int)
    requires Signed(s, digits, n)
    ensures digits == if |s| > 1 && (s[0] == '+' || s[0] == '-') then s[1..] else s
  {
    assert digits[0] != '+' && digits[0] != '-';
    assert ("+" + digits)[1..] == digits && ("-" + digits)[1..] == digits;
  }

  // Decimal without leading zeros.
  function PrintDec(n: nat): string {
    if n < 10 then [(48 + n) as char] else PrintDec(n / 10) + [(48 + n % 10) as char]
  }

  lemma {:induction false} PrintDecReads(n: nat)
    ensures Decimal(PrintDec(n)) && DecNumber(PrintDec(n)) == n
  {
    var s := PrintDec(n);
    if n >= 10 {
      PrintDecReads(n / 10);
      assert s[..|s| - 1] == PrintDec(n / 10);
    } else {
      assert s[..0] == "";
    }
  }

  // `format!("{:x}")` gives the lower-case hex numeral without leading zeros.
  lemma {:induction false} PrintHexIs(n: nat)
    ensures Hexadecimal(PrintHex(n)) && HexNumber(PrintHex(n)) == n
    ensures forall i :: 0 <= i < |PrintHex(n)| ==> !('A' <= PrintHex(n)[i] <= 'F')
    ensures PrintHex(n)[0] == '0' ==> n == 0 && PrintHex(n) == "0"
  {
    var s := PrintHex(n);
    if n >= 16 {
      PrintHexIs(n / 16);
      assert s[..|s| - 1] == PrintHex(n / 16) && s[0] == PrintHex(n / 16)[0];
    } else {
      assert s[..0] == "";
    }
  }
}
