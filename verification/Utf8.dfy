// Valid UTF-8 is the encoding of some sequence of Unicode scalar values (RFC 3629, section 3).
module Utf8 {
  import opened Text

  predicate Scalar(n: nat) {
    n < 0xD800 || 0xE000 <= n < 0x11_0000
  }

  // Six bits behind the marker of a following byte.
  function Tail(n: nat): char {
    (0x80 + n % 64) as char
  }

  function Encoded(n: nat): string
    requires Scalar(n)
  {
    if n < 0x80 then [n as char]
    else if n < 0x800 then [(0xC0 + n / 64) as char, Tail(n)]
    else if n < 0x1_0000 then [(0xE0 + n / 4096) as char, Tail(n / 64), Tail(n)]
    else [(0xF0 + n / 262144) as char, Tail(n / 4096), Tail(n / 64), Tail(n)]
  }

  predicate Scalars(ns: seq<nat>) {
    forall i :: 0 <= i < |ns| ==> Scalar(ns[i])
  }

  function EncodedAll(ns: seq<nat>): string
    requires Scalars(ns)
  {
    if ns == [] then "" else Encoded(ns[0]) + EncodedAll(ns[1..])
  }

  lemma TailContinues(n: nat)
    ensures Continuation(Tail(n))
  {
  }

  // What the leading byte and the next one must be.
  lemma Leading(n: nat)
    requires Scalar(n) && n >= 0x80
    ensures
      var e := Encoded(n);
      && (n < 0x800 ==> '\U{C2}' <= e[0] <= '\U{DF}')
      && (0x800 <= n < 0x1_0000 ==> '\U{E0}' <= e[0] <= '\U{EF}' && (e[0] == '\U{E0}' ==> e[1] >= '\U{A0}')
                                    && (e[0] == '\U{ED}' ==> e[1] <= '\U{9F}'))
      && (n >= 0x1_0000 ==> '\U{F0}' <= e[0] <= '\U{F4}' && (e[0] == '\U{F0}' ==> e[1] >= '\U{90}')
                            && (e[0] == '\U{F4}' ==> e[1] <= '\U{8F}'))
  {
    if 0x800 <= n < 0x1_0000 {
      Quotient(n, 4096, 64);
    } else if n >= 0x1_0000 {
      Quotient(n, 262144, 4096);
    }
  }

  // The six bits below the leading ones.
  lemma Quotient(n: nat, high: nat, low: nat)
    requires (high == 4096 && low == 64) || (high == 262144 && low == 4096)
    ensures n / low == 64 * (n / high) + n / low % 64
  {
  }

  lemma OneScalar(n: nat, rest: string)
    requires Scalar(n)
    ensures ValidUtf8(Encoded(n) + rest) <==> ValidUtf8(rest)
  {
    var e := Encoded(n);
    var s := e + rest;
    assert s[|e|..] == rest;
    if n >= 0x80 {
      Leading(n);
      TailContinues(n);
      TailContinues(n / 64);
      TailContinues(n / 4096);
      hide Tail, Scalar, Continuation;
      assert s[0] == e[0] && s[1] == e[1];
    }
  }

  lemma TwoBytes(a: int, b: int)
    requires 0xC2 <= a <= 0xDF && 0x80 <= b <= 0xBF
    ensures
      var n := (a - 0xC0) * 64 + (b - 0x80);
      Scalar(n) && Encoded(n) == [a as char, b as char]
  {
  }

  lemma ThreeBytes(a: int, b: int, c: int)
    requires 0xE0 <= a <= 0xEF && 0x80 <= b <= 0xBF && 0x80 <= c <= 0xBF
    requires (a == 0xE0 ==> b >= 0xA0) && (a == 0xED ==> b <= 0x9F)
    ensures
      var n := (a - 0xE0) * 4096 + (b - 0x80) * 64 + (c - 0x80);
      Scalar(n) && Encoded(n) == [a as char, b as char, c as char]
  {
    var n := (a - 0xE0) * 4096 + (b - 0x80) * 64 + (c - 0x80);
    assert n / 64 == (a - 0xE0) * 64 + (b - 0x80);
  }

  lemma Shifted(m: nat, x: nat)
    requires x < 64
    ensures
      var n := 64 * m + x;
      n / 64 == m && n % 64 == x && n / 4096 == m / 64 && n / 262144 == m / 4096
  {
  }

  lemma FourBytes(a: int, b: int, c: int, d: int)
    requires 0xF0 <= a <= 0xF4 && 0x80 <= b <= 0xBF && 0x80 <= c <= 0xBF && 0x80 <= d <= 0xBF
    requires (a == 0xF0 ==> b >= 0x90) && (a == 0xF4 ==> b <= 0x8F)
    ensures
      var n := (a - 0xF0) * 262144 + (b - 0x80) * 4096 + (c - 0x80) * 64 + (d - 0x80);
      Scalar(n) && Encoded(n) == [a as char, b as char, c as char, d as char]
  {
    hide Tail;
    var n := (a - 0xF0) * 262144 + (b - 0x80) * 4096 + (c - 0x80) * 64 + (d - 0x80);
    var l: nat := 64 * (a - 0xF0) + (b - 0x80);
    var m: nat := 64 * l + (c - 0x80);
    Shifted(a - 0xF0, b - 0x80);
    Shifted(l, c - 0x80);
    Shifted(m, d - 0x80);
    TailIs(n, d);
    TailIs(m, c);
    TailIs(l, b);
  }

  lemma TailIs(n: nat, b: int)
    requires 0x80 <= b <= 0xBF && n % 64 == b - 0x80
    ensures Tail(n) == b as char
  {
  }

  // The first character of valid text.
  lemma FirstScalar(s: string) returns (n: nat, rest: string)
    requires ValidUtf8(s) && s != ""
    ensures Scalar(n) && s == Encoded(n) + rest && ValidUtf8(rest) && |rest| < |s|
  {
    hide Encoded, Scalar;
    var a := s[0] as int;
    if a < 0x80 {
      OneByte(a);
      n, rest := a, s[1..];
    } else if a < 0xE0 {
      TwoBytes(a, s[1] as int);
      n, rest := (a - 0xC0) * 64 + (s[1] as int - 0x80), s[2..];
    } else if a < 0xF0 {
      ThreeBytes(a, s[1] as int, s[2] as int);
      n, rest := (a - 0xE0) * 4096 + (s[1] as int - 0x80) * 64 + (s[2] as int - 0x80), s[3..];
    } else {
      FourBytes(a, s[1] as int, s[2] as int, s[3] as int);
      n := (a - 0xF0) * 262144 + (s[1] as int - 0x80) * 4096 + (s[2] as int - 0x80) * 64 + (s[3] as int - 0x80);
      rest := s[4..];
    }
    assert s == Encoded(n) + rest;
  }

  lemma OneByte(a: int)
    requires 0 <= a < 0x80
    ensures Scalar(a) && Encoded(a) == [a as char]
  {
  }

  lemma {:induction false} EncodedIsValid(ns: seq<nat>)
    requires Scalars(ns)
    ensures ValidUtf8(EncodedAll(ns))
  {
    hide ValidUtf8, Encoded;
    if ns == [] {
      NothingValid();
    } else {
      EncodedIsValid(ns[1..]);
      OneScalar(ns[0], EncodedAll(ns[1..]));
    }
  }

  lemma NothingValid()
    ensures ValidUtf8("")
  {
  }

  lemma {:induction false} ValidIsEncoded(s: string) returns (ns: seq<nat>)
    requires ValidUtf8(s)
    ensures Scalars(ns) && s == EncodedAll(ns)
    decreases |s|
  {
    hide ValidUtf8, Encoded, Scalar;
    if s == "" {
      ns := [];
    } else {
      var n, rest := FirstScalar(s);
      var more := ValidIsEncoded(rest);
      ns := [n] + more;
      assert ns[1..] == more;
    }
  }

  lemma ValidUtf8Is(s: string)
    ensures ValidUtf8(s) <==> exists ns :: Scalars(ns) && s == EncodedAll(ns)
  {
    hide ValidUtf8, EncodedAll, Scalars;
    if ValidUtf8(s) { var ns := ValidIsEncoded(s); }
    if ns :| Scalars(ns) && s == EncodedAll(ns) { EncodedIsValid(ns); }
  }
}
