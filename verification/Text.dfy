/** Decimal numbers as the log store prints and parses them. */
module Text {
  import opened Bytes

  function Ascii(s: string): seq<byte> { seq(|s|, i requires 0 <= i < |s| => (s[i] as int) % 256) }

  predicate IsDigit(c: byte) { 48 <= c <= 57 }
  predicate IsSpace(c: byte) { c == 32 || 9 <= c <= 13 }
  predicate AllDigits(s: seq<byte>) { forall c | c in s :: IsDigit(c) }

  /** std::to_string of an unsigned number. */
  function Digits(n: nat): seq<byte> {
    if n < 10 then [48 + n] else Digits(n / 10) + [48 + n % 10]
  }

  function Value(ds: seq<byte>): int {
    if ds == [] then 0 else Value(ds[..|ds| - 1]) * 10 + (ds[|ds| - 1] as int - 48)
  }

  function SkipSpace(s: seq<byte>): seq<byte> {
    if s != [] && IsSpace(s[0]) then SkipSpace(s[1..]) else s
  }

  function TakeDigits(s: seq<byte>): seq<byte> {
    if s != [] && IsDigit(s[0]) then [s[0]] + TakeDigits(s[1..]) else []
  }

  /** std::stoll: leading space, an optional sign, then digits; None where it throws. */
  function Stoll(s: seq<byte>): Option<int> {
    var t := SkipSpace(s);
    var signed := t != [] && (t[0] == 43 || t[0] == 45);
    var ds := TakeDigits(if signed then t[1..] else t);
    if ds == [] then None else
    var v := if signed && t[0] == 45 then -Value(ds) else Value(ds);
    if -0x8000_0000_0000_0000 <= v < 0x8000_0000_0000_0000 then Some(v) else None
  }

  /** The 32-bit version a stored string stands for; unreadable strings count as 0. */
  function VersionOf(s: seq<byte>): uint32 {
    if s == [] then 0 else
    match Stoll(s)
    case None => 0
    case Some(v) => v % 0x1_0000_0000
  }

  /** A number is printed in decimal digits without leading zeros. */
  lemma {:induction false} DigitsPrint(n: nat)
    ensures Digits(n) != [] && AllDigits(Digits(n)) && Value(Digits(n)) == n && (n > 0 ==> Digits(n)[0] != 48) && Digits(0) == [48]
  {
    if n >= 10 {
      DigitsPrint(n / 10);
      assert Digits(n)[..|Digits(n)| - 1] == Digits(n / 10);
    }
  }

  /** A run of digits ends where something else begins. */
  lemma {:induction false} TakeDigitsOf(d: seq<byte>, s: seq<byte>)
    requires AllDigits(d) && (s != [] ==> !IsDigit(s[0]))
    ensures TakeDigits(d + s) == d
  {
    if d == [] {
      assert d + s == s;
    } else {
      TakeDigitsOf(d[1..], s);
      assert d == [d[0]] + d[1..] && (d + s)[1..] == d[1..] + s && d[0] in d;
    }
  }

  /** Every 32-bit version survives being printed and parsed. */
  lemma VersionRoundTrip(v: uint32)
    ensures VersionOf(Digits(v)) == v
  {
    DigitsPrint(v);
    TakeDigitsOf(Digits(v), []);
    assert Digits(v) + [] == Digits(v);
    assert Digits(v)[0] in Digits(v);
    assert SkipSpace(Digits(v)) == Digits(v);
  }

  lemma DigitsInjective(m: nat, n: nat)
    requires Digits(m) == Digits(n)
    ensures m == n
  {
    DigitsPrint(m);
    DigitsPrint(n);
  }

  /** A run of digits followed by something else is cut in one way only. */
  lemma DigitsThenRest(d1: seq<byte>, s1: seq<byte>, d2: seq<byte>, s2: seq<byte>)
    requires AllDigits(d1) && AllDigits(d2) && d1 + s1 == d2 + s2
    requires s1 != [] ==> !IsDigit(s1[0])
    requires s2 != [] ==> !IsDigit(s2[0])
    ensures d1 == d2 && s1 == s2
  {
    TakeDigitsOf(d1, s1);
    TakeDigitsOf(d2, s2);
    assert s1 == (d1 + s1)[|d1|..] == (d2 + s2)[|d2|..] == s2;
  }

  lemma {:induction false} SkipSpaceOf(space: seq<byte>, s: seq<byte>)
    requires (forall c | c in space :: IsSpace(c)) && (s != [] ==> !IsSpace(s[0]))
    ensures SkipSpace(space + s) == s
    decreases |space|
  {
    if space == [] { assert space + s == s; } else {
      assert space[0] in space && (space + s)[1..] == space[1..] + s;
      SkipSpaceOf(space[1..], s);
    }
  }

  /** What is read: space, a sign if there is one, and the digits up to the first other byte, whose value it is unless
      64 bits cannot hold it. */
  lemma StollReads(space: seq<byte>, sign: seq<byte>, digits: seq<byte>, rest: seq<byte>)
    requires (forall c | c in space :: IsSpace(c)) && sign in {[], [43], [45]} && AllDigits(digits)
    requires (rest != [] ==> !IsDigit(rest[0])) && (sign + digits == [] && rest != [] ==> !IsSpace(rest[0]) && rest[0] != 43 && rest[0] != 45)
    ensures var v := if sign == [45] then -Value(digits) else Value(digits);
            Stoll(space + sign + digits + rest) ==
              if digits != [] && -0x8000_0000_0000_0000 <= v < 0x8000_0000_0000_0000 then Some(v) else None
  {
    hide Value, TakeDigits, SkipSpace;
    var t := sign + digits + rest;
    assert space + sign + digits + rest == space + t;
    FirstByte(sign, digits, rest);
    SkipSpaceOf(space, t);
    TakeDigitsOf(digits, rest);
    if sign == [] { assert t == digits + rest; } else { assert t[1..] == digits + rest; }
  }

  lemma FirstByte(sign: seq<byte>, digits: seq<byte>, rest: seq<byte>)
    requires sign in {[], [43], [45]} && AllDigits(digits)
    requires sign + digits == [] && rest != [] ==> !IsSpace(rest[0]) && rest[0] != 43 && rest[0] != 45
    ensures var t := sign + digits + rest;
            && (t != [] ==> !IsSpace(t[0]))
            && (t != [] && (t[0] == 43 || t[0] == 45) <==> sign != []) && (sign != [] ==> t[0] == sign[0])
  {
    var t := sign + digits + rest;
    if sign == [] && digits != [] { assert digits[0] in digits && t[0] == digits[0]; }
    if sign == [] && digits == [] { assert t == rest; }
  }

  /** A stored version is what was printed, cut to 32 bits; an unreadable or missing one is 0. */
  lemma VersionOfReads(s: seq<byte>)
    ensures VersionOf([]) == 0
    ensures match Stoll(s) case None => VersionOf(s) == 0 case Some(v) => s != [] && VersionOf(s) == v % 0x1_0000_0000
  {
    assert Stoll([]) == None;
  }
}
