// The string functions of the Rust standard library that the parsers lean on. Strings are byte sequences: a
// `char` stands for one byte. White space and letter case are the ASCII ones.
module Text {
  import opened Rgw

  const U64_MAX: nat := 0xFFFF_FFFF_FFFF_FFFF
  const I64_MAX: nat := 0x7FFF_FFFF_FFFF_FFFF
  const I64_MIN: int := -0x8000_0000_0000_0000

  // ------------------------------------------------------------- searching and splitting

  ghost predicate OccursAt(s: string, pat: string, i: nat) {
    i <= |s| && pat <= s[i..]
  }

  // `str::find`: where `pat` first occurs.
  function Find(s: string, pat: string): (r: Option<nat>)
    ensures r.Some? ==> OccursAt(s, pat, r.value) && r.value + |pat| <= |s|
    ensures r.Some? ==> forall j: nat :: j < r.value ==> !OccursAt(s, pat, j)
    ensures r.None? ==> forall j: nat :: !OccursAt(s, pat, j)
  {
    if pat <= s then
      Some(0)
    else if s == "" then
      None
    else
      var r := Find(s[1..], pat);
      assert forall j: nat {:trigger OccursAt(s, pat, j)} :: j > 0 && OccursAt(s, pat, j) ==>
        s[j..] == s[1..][j - 1..] && OccursAt(s[1..], pat, j - 1);
      match r
      case None => None
      case Some(i) => assert s[i + 1..] == s[1..][i..]; Some(i + 1)
  }

  // The first occurrence is the only position with the two properties of `Find`.
  lemma FindIs(s: string, pat: string, i: nat)
    requires OccursAt(s, pat, i) && forall j: nat :: j < i ==> !OccursAt(s, pat, j)
    ensures Find(s, pat) == Some(i)
  {
  }

  lemma FindChar(s: string, c: char, t: string)
    requires c !in s
    ensures Find(s + [c] + t, [c]) == Some(|s|)
  {
    var whole := s + [c] + t;
    forall j: nat | j < |s| ensures !OccursAt(whole, [c], j) {
      assert whole[j..][0] == s[j];
    }
    assert [c] <= whole[|s|..];
    FindIs(whole, [c], |s|);
  }

  lemma FindCharNone(s: string, c: char)
    ensures Find(s, [c]).None? <==> c !in s
    ensures Find(s, [c]).Some? ==> s[Find(s, [c]).value] == c && c !in s[..Find(s, [c]).value]
  {
    match Find(s, [c])
    case None =>
      forall i | 0 <= i < |s| ensures s[i] != c {
        assert !OccursAt(s, [c], i);
        assert s[i..] == [s[i]] + s[i + 1..];
      }
    case Some(k) =>
      assert s[k] == s[k..][0];
      forall i | 0 <= i < k ensures s[i] != c {
        assert !OccursAt(s, [c], i);
        assert s[i..] == [s[i]] + s[i + 1..];
      }
  }

  // `str::split_once` on one character.
  function SplitOnce(s: string, c: char): (r: Option<(string, string)>)
    ensures r.Some? ==> |r.value.0| + 1 + |r.value.1| == |s|
  {
    match Find(s, [c])
    case None => None
    case Some(i) => Some((s[..i], s[i + 1..]))
  }

  lemma SplitOnceShape(s: string, c: char)
    ensures SplitOnce(s, c).None? <==> c !in s
    ensures SplitOnce(s, c).Some? ==>
      s == SplitOnce(s, c).value.0 + [c] + SplitOnce(s, c).value.1 && c !in SplitOnce(s, c).value.0
  {
    FindCharNone(s, c);
  }

  lemma SplitOnceIs(a: string, c: char, b: string)
    requires c !in a
    ensures SplitOnce(a + [c] + b, c) == Some((a, b))
  {
    FindChar(a, c, b);
    SplitOnceShape(a + [c] + b, c);
    assert (a + [c] + b)[..|a|] == a && (a + [c] + b)[|a| + 1..] == b;
  }

  // `str::split` on one character: never empty.
  function Split(s: string, c: char): (parts: seq<string>)
    ensures parts != []
    decreases |s|
  {
    match SplitOnce(s, c)
    case None => [s]
    case Some((a, b)) => [a] + Split(b, c)
  }

  lemma {:induction false} SplitParts(s: string, c: char)
    ensures forall p :: p in Split(s, c) ==> c !in p
    decreases |s|
  {
    SplitOnceShape(s, c);
    if c in s {
      SplitParts(SplitOnce(s, c).value.1, c);
    }
  }

  // The split at the last `c`, as the pieces of `str::rsplitn` are taken off.
  function RSplitOnce(s: string, c: char): Option<(string, string)> {
    if s == "" then None
    else
      var n := |s| - 1;
      if s[n] == c then Some((s[..n], ""))
      else
        match RSplitOnce(s[..n], c)
        case None => None
        case Some((a, b)) => Some((a, b + [s[n]]))
  }

  lemma {:induction false} RSplitOnceIs(a: string, c: char, b: string)
    requires c !in b
    ensures RSplitOnce(a + [c] + b, c) == Some((a, b))
  {
    var s := a + [c] + b;
    if b == "" {
      assert s == a + [c];
    } else {
      var n := |b| - 1;
      assert s[..|s| - 1] == a + [c] + b[..n] && b == b[..n] + [b[n]];
      RSplitOnceIs(a, c, b[..n]);
    }
  }

  lemma {:induction false} RSplitOnceShape(s: string, c: char)
    ensures RSplitOnce(s, c).Some? ==>
      s == RSplitOnce(s, c).value.0 + [c] + RSplitOnce(s, c).value.1 && c !in RSplitOnce(s, c).value.1
  {
    if s != "" {
      assert s == s[..|s| - 1] + [s[|s| - 1]];
      if s[|s| - 1] != c { RSplitOnceShape(s[..|s| - 1], c); }
    }
  }

  function Join(parts: seq<string>, sep: string): string {
    if parts == [] then "" else if |parts| == 1 then parts[0] else parts[0] + sep + Join(parts[1..], sep)
  }

  lemma {:induction false} SplitJoin(parts: seq<string>, c: char)
    requires parts != [] && forall p :: p in parts ==> c !in p
    ensures Split(Join(parts, [c]), c) == parts
  {
    if |parts| > 1 {
      SplitOnceIs(parts[0], c, Join(parts[1..], [c]));
      SplitJoin(parts[1..], c);
      assert parts == [parts[0]] + parts[1..];
    } else {
      SplitOnceShape(parts[0], c);
      assert parts[0] in parts && parts == [parts[0]];
    }
  }

  lemma {:induction false} JoinSplit(s: string, c: char)
    ensures Join(Split(s, c), [c]) == s
    decreases |s|
  {
    SplitOnceShape(s, c);
    match SplitOnce(s, c)
    case None =>
    case Some((a, b)) =>
      assert |b| < |s|;
      JoinSplit(b, c);
      assert ([a] + Split(b, c))[1..] == Split(b, c);
  }

  // ------------------------------------------------------------- trimming and case

  predicate IsSpace(c: char) {
    c == ' ' || '\t' <= c <= '\r'
  }

  function SkipSpaces(s: string, lo: nat): (r: nat)
    requires lo <= |s|
    ensures lo <= r <= |s| && (r < |s| ==> !IsSpace(s[r]))
    decreases |s| - lo
  {
    if lo < |s| && IsSpace(s[lo]) then SkipSpaces(s, lo + 1) else lo
  }

  function DropSpaces(s: string, lo: nat, hi: nat): (r: nat)
    requires lo <= hi <= |s|
    ensures lo <= r <= hi && (r > lo ==> !IsSpace(s[r - 1]))
  {
    if lo < hi && IsSpace(s[hi - 1]) then DropSpaces(s, lo, hi - 1) else hi
  }

  // `str::trim`.
  function Trim(s: string): string {
    var lo := SkipSpaces(s, 0);
    s[lo..DropSpaces(s, lo, |s|)]
  }

  predicate Trimmed(s: string) {
    s == "" || (!IsSpace(s[0]) && !IsSpace(s[|s| - 1]))
  }

  lemma TrimIdentity(s: string)
    requires Trimmed(s)
    ensures Trim(s) == s
  {
  }

  lemma TrimTrims(s: string)
    ensures Trimmed(Trim(s))
    ensures forall c :: c in Trim(s) ==> c in s
  {
    var lo := SkipSpaces(s, 0);
    var hi := DropSpaces(s, lo, |s|);
    if lo < hi {
      assert Trim(s)[0] == s[lo] && Trim(s)[hi - lo - 1] == s[hi - 1];
    }
  }

  predicate AllSpace(s: string) {
    forall i :: 0 <= i < |s| ==> IsSpace(s[i])
  }

  lemma {:induction false} SkipsAll(ws: string, s: string, lo: nat)
    requires AllSpace(ws) && lo <= |ws| && (s == "" || !IsSpace(s[0]))
    ensures SkipSpaces(ws + s, lo) == |ws|
    decreases |ws| - lo
  {
    if lo < |ws| { SkipsAll(ws, s, lo + 1); }
  }

  // White space in front of trimmed text is dropped.
  lemma TrimLead(ws: string, s: string)
    requires AllSpace(ws) && Trimmed(s)
    ensures Trim(ws + s) == s
  {
    SkipsAll(ws, s, 0);
    assert (ws + s)[|ws|..] == s;
  }

  function LowerChar(c: char): char {
    if 'A' <= c <= 'Z' then (c as int + 32) as char else c
  }

  // `str::to_ascii_lowercase`.
  function Lower(s: string): (r: string)
    ensures |r| == |s| && forall i :: 0 <= i < |s| ==> r[i] == LowerChar(s[i])
  {
    seq(|s|, i requires 0 <= i < |s| => LowerChar(s[i]))
  }

  // ------------------------------------------------------------- numerals

  function DigitValue(c: char): (r: Option<nat>)
    ensures r.Some? ==> r.value < 16
  {
    if '0' <= c <= '9' then Some(c as int - '0' as int)
    else if 'a' <= c <= 'f' then Some(c as int - 'a' as int + 10)
    else if 'A' <= c <= 'F' then Some(c as int - 'A' as int + 10)
    else None
  }

  // The number a run of digits denotes, most significant first; none if some character is no digit of the radix.
  function Numeral(s: string, radix: nat): Option<nat> {
    if s == "" then Some(0)
    else
      var high, low := Numeral(s[..|s| - 1], radix), DigitValue(s[|s| - 1]);
      if high.Some? && low.Some? && low.value < radix then Some(high.value * radix + low.value) else None
  }

  // `usize::from_str_radix(s, 16)`: one optional `+`, at least one digit, no overflow of 64 bits.
  function ParseHex(s: string): Option<nat> {
    var digits := if |s| > 1 && s[0] == '+' then s[1..] else s;
    var n := Numeral(digits, 16);
    if digits != "" && n.Some? && n.value <= U64_MAX then n else None
  }

  // `str::parse::<u64>` on text without a sign.
  function ParseU64(digits: string): Option<nat> {
    var n := Numeral(digits, 10);
    if digits != "" && n.Some? && n.value <= U64_MAX then n else None
  }

  // `str::parse::<i64>`: an optional sign, at least one digit, no overflow.
  function ParseI64(s: string): Option<int> {
    var digits := if |s| > 1 && (s[0] == '+' || s[0] == '-') then s[1..] else s;
    if digits == "" || Numeral(digits, 10).None? then None
    else
      var magnitude: int := Numeral(digits, 10).value;
      var n := if s[0] == '-' then -magnitude else magnitude;
      if I64_MIN <= n <= I64_MAX then Some(n) else None
  }

  function HexDigit(n: nat): (c: char)
    requires n < 16
    ensures DigitValue(c) == Some(n) && LowerChar(c) == c && ('0' <= c <= '9' || 'a' <= c <= 'f')
  {
    if n < 10 then ('0' as int + n) as char else ('a' as int + n - 10) as char
  }

  function UpperHexDigit(n: nat): (c: char)
    requires n < 16
    ensures DigitValue(c) == Some(n) && ('0' <= c <= '9' || 'A' <= c <= 'F')
  {
    if n < 10 then ('0' as int + n) as char else ('A' as int + n - 10) as char
  }

  predicate IsLowerHex(s: string) {
    forall i :: 0 <= i < |s| ==> '0' <= s[i] <= '9' || 'a' <= s[i] <= 'f'
  }

  // `format!("{:x}")`: lowercase, no leading zeros, `0` for zero.
  function PrintHex(n: nat): (r: string)
    ensures r != "" && IsLowerHex(r)
  {
    if n < 16 then [HexDigit(n)] else PrintHex(n / 16) + [HexDigit(n % 16)]
  }

  lemma {:induction false} NumeralOfPrintHex(n: nat)
    ensures Numeral(PrintHex(n), 16) == Some(n)
  {
    var r := PrintHex(n);
    if n >= 16 {
      NumeralOfPrintHex(n / 16);
      assert r[..|r| - 1] == PrintHex(n / 16) && r[|r| - 1] == HexDigit(n % 16);
    } else {
      assert r[..0] == "";
    }
  }

  lemma ParseHexPrintHex(n: nat)
    requires n <= U64_MAX
    ensures ParseHex(PrintHex(n)) == Some(n)
  {
    NumeralOfPrintHex(n);
  }

  // ------------------------------------------------------------- UTF-8

  predicate Continuation(c: char) {
    '\U{80}' <= c <= '\U{BF}'
  }

  // `std::str::from_utf8(s).is_ok()`: the well-formed sequences of RFC 3629, section 4.
  predicate ValidUtf8(s: string) {
    if s == "" then true
    else if s[0] <= '\U{7F}' then ValidUtf8(s[1..])
    else if |s| < 2 || !Continuation(s[1]) then false
    else if '\U{C2}' <= s[0] <= '\U{DF}' then ValidUtf8(s[2..])
    else if |s| < 3 || !Continuation(s[2]) then false
    else if '\U{E0}' <= s[0] <= '\U{EF}' then
      && (s[0] == '\U{E0}' ==> s[1] >= '\U{A0}')
      && (s[0] == '\U{ED}' ==> s[1] <= '\U{9F}')
      && ValidUtf8(s[3..])
    else
      && '\U{F0}' <= s[0] <= '\U{F4}' && |s| >= 4 && Continuation(s[3])
      && (s[0] == '\U{F0}' ==> s[1] >= '\U{90}')
      && (s[0] == '\U{F4}' ==> s[1] <= '\U{8F}')
      && ValidUtf8(s[4..])
  }

  lemma {:induction false} AsciiIsUtf8(s: string)
    requires forall i :: 0 <= i < |s| ==> s[i] <= '\U{7F}'
    ensures ValidUtf8(s)
  {
    if s != "" { AsciiIsUtf8(s[1..]); }
  }
}
