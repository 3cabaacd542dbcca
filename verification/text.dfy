/** The few pieces of Python text handling the core relies on: `int(s, 16)`,
    `"{:0Nx}".format`, `str(n)`, `"{:8s}".format` and clamped slicing. */
module Text {
  import opened Results
  import Bits

  predicate IsHexDigit(c: char)
  {
    ('0' <= c <= '9') || ('a' <= c <= 'f') || ('A' <= c <= 'F')
  }

  predicate AllHex(s: string)
  {
    forall i :: 0 <= i < |s| ==> IsHexDigit(s[i])
  }

  function DigitValue(c: char): (v: nat)
    requires IsHexDigit(c)
    ensures v < 16
  {
    if '0' <= c <= '9' then c as int - '0' as int
    else if 'a' <= c <= 'f' then c as int - 'a' as int + 10
    else c as int - 'A' as int + 10
  }

  /** The value of a string of hex digits, most significant first. */
  function HexValue(s: string): nat
    requires forall i :: 0 <= i < |s| ==> IsHexDigit(s[i])
  {
    if |s| == 0 then 0 else 16 * HexValue(s[..|s| - 1]) + DigitValue(s[|s| - 1])
  }

  /** Hex digits written after others shift those by four bits each. */
  lemma {:induction false} HexValueAppend(a: string, b: string)
    requires AllHex(a) && AllHex(b)
    ensures AllHex(a + b)
    ensures HexValue(a + b) == HexValue(a) * Bits.Pow2(4 * |b|) + HexValue(b)
    decreases |b|
  {
    if |b| == 0 {
      assert a + b == a;
    } else {
      var b' := b[..|b| - 1];
      HexValueAppend(a, b');
      HexValueStep(a, b, b');
    }
  }

  /** One digit more on the right: the step of the induction above. */
  lemma HexValueStep(a: string, b: string, b': string)
    requires AllHex(a) && AllHex(b) && |b| > 0 && b' == b[..|b| - 1]
    requires AllHex(a + b') && HexValue(a + b') == HexValue(a) * Bits.Pow2(4 * |b'|) + HexValue(b')
    ensures AllHex(a + b) && HexValue(a + b) == HexValue(a) * Bits.Pow2(4 * |b|) + HexValue(b)
  {
    var c := a + b;
    assert c[..|c| - 1] == a + b';
    assert c[|c| - 1] == b[|b| - 1];
    assert AllHex(c);
    HexValueLast(c);
    HexValueLast(b);
    var d := DigitValue(b[|b| - 1]);
    Bits.Pow2Nibble(|b'|);
    Shift(HexValue(a), Bits.Pow2(4 * |b'|), Bits.Pow2(4 * |b|), HexValue(b'), HexValue(a + b'), d);
  }

  lemma HexValueLast(s: string)
    requires |s| > 0 && AllHex(s)
    ensures AllHex(s[..|s| - 1])
    ensures HexValue(s) == 16 * HexValue(s[..|s| - 1]) + DigitValue(s[|s| - 1])
  {
  }

  /** The arithmetic of that step, over plain numbers. */
  lemma Shift(x: int, p: int, p16: int, y: int, xy: int, d: int)
    requires p16 == 16 * p && xy == x * p + y
    ensures 16 * xy + d == x * p16 + (16 * y + d)
  {
  }

  lemma HexPair(t: string)
    requires |t| == 2 && AllHex(t)
    ensures HexValue(t) == 16 * DigitValue(t[0]) + DigitValue(t[1])
  {
    assert t[..1][..0] == [];
    assert t[..|t| - 1] == t[..1];
    assert HexValue(t[..1]) == DigitValue(t[0]);
  }

  /** `n` hex digits hold a value below `16^n`. */
  lemma {:induction false} HexValueBound(s: string)
    requires AllHex(s)
    ensures HexValue(s) < Bits.Pow2(4 * |s|)
    decreases |s|
  {
    if |s| > 0 {
      HexValueBound(s[..|s| - 1]);
      Bits.Pow2Nibble(|s| - 1);
    }
  }

  /** The blanks `int()` skips at either end of its text: the six ASCII
      whitespace characters, and the other characters `str.isspace`
      accepts, which `int()` first turns into a space. The control
      characters 0x1c to 0x1f count as spaces for `str.isspace` but are
      kept as they are, and then rejected. */
  predicate IsBlank(c: char)
  {
    || c == ' ' || ('\t' <= c <= '\r')
    || c as int == 0x85 || c as int == 0xa0 || c as int == 0x1680
    || (0x2000 <= c as int <= 0x200a) || c as int == 0x2028 || c as int == 0x2029
    || c as int == 0x202f || c as int == 0x205f || c as int == 0x3000
  }

  predicate AllBlank(s: string)
  {
    forall i :: 0 <= i < |s| ==> IsBlank(s[i])
  }

  /** `s` without its leading blanks. */
  function TrimLeft(s: string): (t: string)
    ensures |t| <= |s| && t == s[|s| - |t|..]
    ensures forall i :: 0 <= i < |s| - |t| ==> IsBlank(s[i])
    ensures |t| > 0 ==> !IsBlank(t[0])
    decreases |s|
  {
    if |s| > 0 && IsBlank(s[0]) then
      TrimLeft(s[1..])
    else s
  }

  /** `s` without its trailing blanks. */
  function TrimRight(s: string): (t: string)
    ensures |t| <= |s| && t == s[..|t|]
    ensures forall i :: |t| <= i < |s| ==> IsBlank(s[i])
    ensures |t| > 0 ==> !IsBlank(t[|t| - 1])
    decreases |s|
  {
    if |s| > 0 && IsBlank(s[|s| - 1]) then
      TrimRight(s[..|s| - 1])
    else s
  }

  /** Hex digits, with single underscores allowed between two of them:
      a digit, or a run followed by a digit, or by an underscore and a
      digit. */
  predicate IsDigitRun(s: string)
    decreases |s|
  {
    && |s| > 0 && IsHexDigit(s[|s| - 1])
    && (|| |s| == 1
        || (IsHexDigit(s[|s| - 2]) && IsDigitRun(s[..|s| - 1]))
        || (|s| >= 3 && s[|s| - 2] == '_' && IsDigitRun(s[..|s| - 2])))
  }

  /** The digits of a run, its underscores dropped. */
  function Digits(s: string): (d: string)
    requires IsDigitRun(s)
    ensures AllHex(d) && 0 < |d| <= |s|
    decreases |s|
  {
    if |s| == 1 then s
    else if IsHexDigit(s[|s| - 2]) then Digits(s[..|s| - 1]) + [s[|s| - 1]]
    else Digits(s[..|s| - 2]) + [s[|s| - 1]]
  }

  /** A run starts with a digit. */
  lemma {:induction false} RunStart(s: string)
    requires IsDigitRun(s)
    ensures IsHexDigit(s[0])
    decreases |s|
  {
    if |s| > 1 {
      if IsHexDigit(s[|s| - 2]) {
        RunStart(s[..|s| - 1]);
      } else {
        RunStart(s[..|s| - 2]);
      }
    }
  }

  /** Hex digits alone form a run whose digits are themselves. */
  lemma {:induction false} DigitsOnly(s: string)
    requires |s| > 0 && AllHex(s)
    ensures IsDigitRun(s) && Digits(s) == s
    decreases |s|
  {
    if |s| > 1 {
      DigitsOnly(s[..|s| - 1]);
      assert s == s[..|s| - 1] + [s[|s| - 1]];
    }
  }

  /** The number's text past a `0x` or `0X` prefix and the one underscore
      allowed right after it. */
  function DropPrefix(u: string): (run: string)
    ensures |run| <= |u|
  {
    if |u| >= 2 && u[0] == '0' && (u[1] == 'x' || u[1] == 'X') then
      if |u| >= 3 && u[2] == '_' then u[3..] else u[2..]
    else u
  }

  /** `int(s, 16)`: blanks at either end, then an optional sign, an
      optional `0x` prefix and a run of hex digits with single
      underscores between them. Anything else is Python's `ValueError`.
      A text of hex digits alone is read as the number it spells. */
  function ParseHex(s: string): (r: Result<int>)
    ensures r.Err? ==> r == Err(BadHex(s))
    ensures AllHex(s) ==> r == if |s| == 0 then Err(BadHex(s)) else Ok(HexValue(s))
    ensures AllBlank(s) ==> r.Err?
  {
    AllHexParts(s);
    ParseTrimmed(TrimRight(TrimLeft(s)), s)
  }

  /** The number `int(s, 16)` reads in `t`, the text `s` without its
      blanks: an optional sign, an optional prefix and a digit run. */
  function ParseTrimmed(t: string, s: string): (r: Result<int>)
    ensures r.Err? ==> r == Err(BadHex(s))
  {
    var negative := |t| > 0 && t[0] == '-';
    var u := if |t| > 0 && (t[0] == '+' || t[0] == '-') then t[1..] else t;
    var run := DropPrefix(u);
    if IsDigitRun(run) then
      var v: int := HexValue(Digits(run));
      Ok(if negative then -v else v)
    else Err(BadHex(s))
  }

  /** A text of hex digits alone has no blanks, sign or prefix to drop,
      and is its own run. */
  lemma AllHexParts(s: string)
    ensures |s| > 0 && AllHex(s) ==>
      TrimRight(TrimLeft(s)) == s && DropPrefix(s) == s && IsDigitRun(s) && Digits(s) == s
  {
    if |s| > 0 && AllHex(s) {
      TrimLeftBlanks([], s);
      TrimRightBlanks(s, []);
      assert [] + s == s && s + [] == s;
      DigitsOnly(s);
    }
  }

  /** The signs `int()` accepts in front of a number. */
  predicate IsSign(sign: string)
  {
    |sign| <= 1 && (|sign| == 1 ==> sign[0] == '+' || sign[0] == '-')
  }

  /** The prefixes `int(_, 16)` accepts in front of the digits. */
  predicate IsPrefix(prefix: string)
  {
    || prefix == ""
    || (&& (|prefix| == 2 || |prefix| == 3) && prefix[0] == '0' && (prefix[1] == 'x' || prefix[1] == 'X')
        && (|prefix| == 3 ==> prefix[2] == '_'))
  }

  /** The value a literal of those parts stands for. */
  function LiteralValue(sign: string, run: string): int
    requires IsDigitRun(run)
  {
    var v: int := HexValue(Digits(run));
    if sign == ['-'] then -v else v
  }

  /** Every text made of blanks, a sign, a prefix, a digit run and blanks
      is read as the run's value with the sign. */
  lemma ParseHexLiteral(lead: string, sign: string, prefix: string, run: string, trail: string)
    requires AllBlank(lead) && AllBlank(trail) && IsSign(sign) && IsPrefix(prefix) && IsDigitRun(run)
    ensures ParseHex(lead + sign + prefix + run + trail) == Ok(LiteralValue(sign, run))
  {
    var s := lead + sign + prefix + run + trail;
    CoreEnds(sign, prefix, run);
    Regroup(lead, sign, prefix, run, trail);
    Trimmed(s, lead, sign + prefix + run, trail);
    ParseCore(sign, prefix, run, s);
  }

  lemma Regroup(lead: string, sign: string, prefix: string, run: string, trail: string)
    ensures lead + sign + prefix + run + trail == lead + (sign + prefix + run) + trail
  {
  }

  /** A sign, a prefix and a run begin and end with no blank. */
  lemma CoreEnds(sign: string, prefix: string, run: string)
    requires IsSign(sign) && IsPrefix(prefix) && IsDigitRun(run)
    ensures var core := sign + prefix + run; |core| > 0 && !IsBlank(core[0]) && !IsBlank(core[|core| - 1])
  {
    RunStart(run);
    var core := sign + prefix + run;
    assert core[|core| - 1] == run[|run| - 1];
    assert core[0] == if sign != "" then sign[0] else if prefix != "" then '0' else run[0];
  }

  /** Blanks around a core that starts and ends with no blank trim away. */
  lemma Trimmed(s: string, lead: string, core: string, trail: string)
    requires AllBlank(lead) && AllBlank(trail) && |core| > 0 && !IsBlank(core[0]) && !IsBlank(core[|core| - 1])
    requires s == lead + core + trail
    ensures TrimRight(TrimLeft(s)) == core
  {
    assert s == lead + (core + trail);
    TrimLeftBlanks(lead, core + trail);
    TrimRightBlanks(core, trail);
  }

  /** The trimmed text of a sign, a prefix and a run reads as the run's
      value with the sign. */
  lemma ParseCore(sign: string, prefix: string, run: string, s: string)
    requires IsSign(sign) && IsPrefix(prefix) && IsDigitRun(run)
    ensures ParseTrimmed(sign + prefix + run, s) == Ok(LiteralValue(sign, run))
  {
    RunStart(run);
    assert sign + prefix + run == sign + (prefix + run);
    assert (prefix + run)[0] == if prefix != "" then '0' else run[0];
    SignOff(sign, prefix + run);
    PrefixOff(prefix, run);
  }

  /** A sign in front of a text that starts with neither sign is what
      `ParseTrimmed` takes off. */
  lemma SignOff(sign: string, u: string)
    requires IsSign(sign) && |u| > 0 && u[0] != '+' && u[0] != '-'
    ensures var t := sign + u;
      && ((|t| > 0 && t[0] == '-') <==> sign == ['-'])
      && (if |t| > 0 && (t[0] == '+' || t[0] == '-') then t[1..] else t) == u
  {
    if sign != "" {
      assert (sign + u)[1..] == u;
    }
  }

  /** `DropPrefix` takes off exactly the prefix in front of a run. */
  lemma PrefixOff(prefix: string, run: string)
    requires IsPrefix(prefix) && IsDigitRun(run)
    ensures DropPrefix(prefix + run) == run
  {
    RunStart(run);
    if |prefix| == 0 {
      assert prefix + run == run;
    } else {
      PrefixDigit(prefix, run);
    }
  }

  lemma PrefixDigit(prefix: string, run: string)
    requires |prefix| >= 2 && prefix[0] == '0' && (prefix[1] == 'x' || prefix[1] == 'X')
    requires |prefix| == 2 || (|prefix| == 3 && prefix[2] == '_')
    requires |run| > 0 && IsHexDigit(run[0])
    ensures DropPrefix(prefix + run) == run
  {
    var u := prefix + run;
    assert u[0] == '0' && u[1] == prefix[1];
    if |prefix| == 3 {
      assert u[2] == '_';
      assert u[3..] == run;
    } else {
      assert u[2] == run[0];
      assert u[2..] == run;
    }
  }

  /** Leading blanks in front of a text that starts with no blank are
      exactly what `TrimLeft` removes. */
  lemma {:induction false} TrimLeftBlanks(lead: string, rest: string)
    requires AllBlank(lead) && (|rest| > 0 ==> !IsBlank(rest[0]))
    ensures TrimLeft(lead + rest) == rest
    decreases |lead|
  {
    if |lead| > 0 {
      assert (lead + rest)[1..] == lead[1..] + rest;
      TrimLeftBlanks(lead[1..], rest);
    } else {
      assert lead + rest == rest;
    }
  }

  /** Trailing blanks behind a text that ends with no blank are exactly
      what `TrimRight` removes. */
  lemma {:induction false} TrimRightBlanks(rest: string, trail: string)
    requires AllBlank(trail) && (|rest| > 0 ==> !IsBlank(rest[|rest| - 1]))
    ensures TrimRight(rest + trail) == rest
    decreases |trail|
  {
    if |trail| > 0 {
      assert (rest + trail)[..|rest + trail| - 1] == rest + trail[..|trail| - 1];
      TrimRightBlanks(rest, trail[..|trail| - 1]);
    } else {
      assert rest + trail == rest;
    }
  }

  /** Conversely, every text `int(_, 16)` accepts is made of those parts,
      and its value is the run's with the sign. */
  lemma ParseHexOnlyLiterals(s: string) returns (lead: string, sign: string, prefix: string, run: string, trail: string)
    requires ParseHex(s).Ok?
    ensures AllBlank(lead) && AllBlank(trail) && IsSign(sign) && IsPrefix(prefix) && IsDigitRun(run)
    ensures s == lead + sign + prefix + run + trail
    ensures ParseHex(s) == Ok(LiteralValue(sign, run))
  {
    var t;
    lead, t, trail := TrimSplit(s);
    sign, prefix, run := TrimmedParts(t, s);
    Regroup(lead, sign, prefix, run, trail);
  }

  /** A text is its leading blanks, its trimmed text and its trailing blanks. */
  lemma TrimSplit(s: string) returns (lead: string, t: string, trail: string)
    ensures AllBlank(lead) && AllBlank(trail)
    ensures t == TrimRight(TrimLeft(s)) && s == lead + t + trail
  {
    var l;
    lead, l := LeadSplit(s);
    t, trail := TrailSplit(l);
    Assoc(lead, t, trail);
  }

  lemma LeadSplit(s: string) returns (lead: string, l: string)
    ensures AllBlank(lead) && l == TrimLeft(s) && s == lead + l
  {
    l := TrimLeft(s);
    lead := s[..|s| - |l|];
  }

  lemma TrailSplit(l: string) returns (t: string, trail: string)
    ensures AllBlank(trail) && t == TrimRight(l) && l == t + trail
  {
    t := TrimRight(l);
    trail := l[|t|..];
  }

  /** A trimmed text `int(_, 16)` accepts is a sign, a prefix and a run. */
  lemma TrimmedParts(t: string, s: string) returns (sign: string, prefix: string, run: string)
    requires ParseTrimmed(t, s).Ok?
    ensures IsSign(sign) && IsPrefix(prefix) && IsDigitRun(run)
    ensures t == sign + prefix + run
    ensures ParseTrimmed(t, s) == Ok(LiteralValue(sign, run))
  {
    var u;
    sign, u := SignPart(t);
    run := DropPrefix(u);
    prefix := PrefixPart(u);
    Assoc(sign, prefix, run);
    var v: int := HexValue(Digits(run));
    assert ParseTrimmed(t, s) == Ok(if sign == ['-'] then -v else v);
  }

  lemma Assoc(a: string, b: string, c: string)
    ensures a + b + c == a + (b + c)
  {
  }

  /** The sign `ParseTrimmed` takes off the front of `t`, and the rest. */
  lemma SignPart(t: string) returns (sign: string, u: string)
    ensures IsSign(sign) && t == sign + u
    ensures u == if |t| > 0 && (t[0] == '+' || t[0] == '-') then t[1..] else t
    ensures (|t| > 0 && t[0] == '-') <==> sign == ['-']
  {
    if |t| > 0 && (t[0] == '+' || t[0] == '-') {
      sign, u := [t[0]], t[1..];
    } else {
      sign, u := "", t;
    }
  }

  /** The prefix `DropPrefix` takes off the front of `u`. */
  lemma PrefixPart(u: string) returns (prefix: string)
    ensures IsPrefix(prefix) && u == prefix + DropPrefix(u)
  {
    if |u| >= 2 && u[0] == '0' && (u[1] == 'x' || u[1] == 'X') {
      if |u| >= 3 && u[2] == '_' {
        prefix := u[..3];
      } else {
        prefix := u[..2];
      }
    } else {
      prefix := "";
    }
  }

  /** What `int(_, 16)` makes of a few texts: blanks around the number
      are skipped, ... */
  lemma ParseHexAcceptsBlanks()
    ensures ParseHex(" f") == Ok(15) && ParseHex("f\r") == Ok(15)
  {
    assert " f"[1..] == "f" && "f\r"[..1] == "f";
    Untrimmed("f");
    assert TrimRight(TrimLeft(" f")) == "f";
    assert TrimRight(TrimLeft("f\r")) == "f";
  }

  /** ... a sign in front of it is accepted, ... */
  lemma ParseHexAcceptsSigns()
    ensures ParseHex("-1") == Ok(-1) && ParseHex("+f") == Ok(15)
  {
    Untrimmed("-1");
    Untrimmed("+f");
    assert "-1"[1..] == "1" && "+f"[1..] == "f";
    assert HexValue("1") == 1 by {
      assert "1"[..0] == [];
    }
  }

  /** ... and so is a `0x` prefix, ... */
  lemma ParseHexAcceptsPrefix()
    ensures ParseHex("0x1f") == Ok(31)
  {
    RunOneF();
    assert DropPrefix("0x1f") == "1f";
    ParseUnsigned("0x1f", "1f");
  }

  /** ... also with an underscore behind it, ... */
  lemma ParseHexAcceptsPrefixUnderscore()
    ensures ParseHex("0X_1f") == Ok(31)
  {
    RunOneF();
    assert DropPrefix("0X_1f") == "1f";
    ParseUnsigned("0X_1f", "1f");
  }

  lemma RunOneF()
    ensures IsDigitRun("1f") && HexValue(Digits("1f")) == 31
  {
    HexPair("1f");
    DigitsOnly("1f");
  }

  /** A text with no blank at either end and no sign reads as the run
      behind its prefix. */
  lemma ParseUnsigned(t: string, run: string)
    requires |t| > 0 && !IsBlank(t[0]) && !IsBlank(t[|t| - 1]) && t[0] != '+' && t[0] != '-'
    requires DropPrefix(t) == run && IsDigitRun(run)
    ensures ParseHex(t) == Ok(HexValue(Digits(run)))
  {
    Untrimmed(t);
  }

  /** ... and underscores between digits, ... */
  lemma ParseHexAcceptsUnderscores()
    ensures ParseHex("1_f") == Ok(31)
  {
    HexPair("1f");
    Untrimmed("1_f");
    assert "1_f"[..1] == "1";
    assert Digits("1_f") == "1f";
  }

  /** ... and an empty text, a bare prefix, a sign apart from its number
      and underscores at the ends or doubled are rejected. */
  lemma ParseHexRejects()
    ensures ParseHex("").Err? && ParseHex("0x").Err? && ParseHex("- 1").Err?
    ensures ParseHex("_1").Err? && ParseHex("1_").Err? && ParseHex("1__f").Err?
  {
    Untrimmed("0x");
    assert DropPrefix("0x") == "";
    Untrimmed("- 1");
    assert "- 1"[1..] == " 1";
    Untrimmed("_1");
    Untrimmed("1_");
    Untrimmed("1__f");
    assert "1__f"[..2] == "1_";
  }

  /** A text with no blank at either end is its own trimmed text. */
  lemma Untrimmed(s: string)
    requires |s| > 0 && !IsBlank(s[0]) && !IsBlank(s[|s| - 1])
    ensures TrimRight(TrimLeft(s)) == s
  {
    assert s == [] + s + [];
    Trimmed(s, [], s, []);
  }

  function LowerHexDigit(d: nat): (c: char)
    requires d < 16
    ensures IsHexDigit(c) && DigitValue(c) == d
  {
    if d < 10 then ('0' as int + d) as char else ('a' as int + d - 10) as char
  }

  /** The shortest lower-case hex spelling of `v`. */
  function HexDigits(v: nat): (s: string)
    ensures |s| >= 1
    ensures forall i :: 0 <= i < |s| ==> IsHexDigit(s[i])
    ensures HexValue(s) == v
    ensures v < 16 ==> |s| == 1
    ensures 16 <= v < 256 ==> |s| == 2
    ensures 256 <= v < 0x1_0000 ==> 3 <= |s| <= 4
  {
    if v < 16 then [LowerHexDigit(v)]
    else
      var s := HexDigits(v / 16) + [LowerHexDigit(v % 16)];
      assert s[..|s| - 1] == HexDigits(v / 16);
      s
  }

  lemma {:induction false} LeadingZeros(z: nat, s: string)
    requires forall i :: 0 <= i < |s| ==> IsHexDigit(s[i])
    ensures AllHex(seq(z, _ => '0') + s)
    ensures HexValue(seq(z, _ => '0') + s) == HexValue(s)
    decreases |s|
  {
    var t := seq(z, _ => '0') + s;
    if |s| == 0 {
      assert t == seq(z, _ => '0');
      ZerosValue(z);
    } else {
      assert t[..|t| - 1] == seq(z, _ => '0') + s[..|s| - 1];
      LeadingZeros(z, s[..|s| - 1]);
    }
  }

  lemma {:induction false} ZerosValue(z: nat)
    ensures HexValue(seq(z, _ => '0')) == 0
    decreases z
  {
    if z > 0 {
      assert seq(z, _ => '0')[..z - 1] == seq(z - 1, _ => '0');
      ZerosValue(z - 1);
    }
  }

  /** `"{:0Wx}".format(v)`: lower-case hex, zero-padded to at least `width`. */
  function FormatHex(v: nat, width: nat): (s: string)
    ensures |s| >= 1 && forall i :: 0 <= i < |s| ==> IsHexDigit(s[i])
    ensures HexValue(s) == v
    ensures v < Bits.Pow2(4 * width) ==> |s| == width || (width == 0 && |s| == 1)
  {
    var d := HexDigits(v);
    var z := if |d| < width then width - |d| else 0;
    LeadingZeros(z, d);
    DigitsFit(v, width);
    seq(z, _ => '0') + d
  }

  /** `int(_, 16)` reads back what `"{:0Wx}"` writes. */
  lemma FormatParse(v: nat, width: nat)
    ensures ParseHex(FormatHex(v, width)) == Ok(v)
  {
  }

  lemma {:induction false} DigitsFit(v: nat, width: nat)
    ensures v < Bits.Pow2(4 * width) ==> |HexDigits(v)| <= width || (width == 0 && |HexDigits(v)| == 1)
    decreases v
  {
    if v >= 16 && width > 0 && v < Bits.Pow2(4 * width) {
      Bits.Pow2Nibble(width - 1);
      DigitsFit(v / 16, width - 1);
    }
  }

  function DecimalDigits(n: nat): (s: string)
    ensures |s| >= 1
    ensures forall i :: 0 <= i < |s| ==> '0' <= s[i] <= '9'
  {
    if n < 10 then [('0' as int + n) as char]
    else DecimalDigits(n / 10) + [('0' as int + n % 10) as char]
  }

  /** `str(n)` / `"{}".format(n)` of a Python int. */
  function Decimal(n: int): (s: string)
    ensures |s| >= 1
    ensures n >= 0 ==> forall i :: 0 <= i < |s| ==> '0' <= s[i] <= '9'
    ensures n < 0 ==> s[0] == '-'
  {
    if n < 0 then "-" + DecimalDigits(-n) else DecimalDigits(n)
  }

  /** `"{:Ns}".format(s)`: left-justified in a field of `width` characters. */
  function PadRight(s: string, width: nat): (r: string)
    ensures |r| == if |s| < width then width else |s|
    ensures r[..|s|] == s
    ensures forall i :: |s| <= i < |r| ==> r[i] == ' '
  {
    if |s| < width then s + seq(width - |s|, _ => ' ') else s
  }

  /** Python's `s[a:b]` for non-negative bounds: both ends are clamped to `|s|`. */
  function Slice(s: string, a: nat, b: nat): (r: string)
    ensures a <= b <= |s| ==> r == s[a..b]
    ensures a <= b ==> |r| <= b - a
  {
    var lo := if a < |s| then a else |s|;
    var hi := if b < lo then lo else if b < |s| then b else |s|;
    s[lo..hi]
  }
}
