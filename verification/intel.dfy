/** The per-record part of memory.py's Intel HEX support: the record
    checksum, the decoding of one `load_intel` line and the one-byte records
    `save_intel` writes. Reading and writing the file itself is not modelled. */
module IntelHex {
  import opened Results
  import opened Text
  import Bits
  import opened AddressSpace

  /** What `int(g, 16)` makes of a text of at most two characters, case
      by case: two digits; one digit, alone or with a blank or sign in front
      or a blank behind it. Nothing else that short is a number. */
  function Group(g: string): Result<int>
    requires |g| <= 2
  {
    if |g| == 0 then Err(BadHex(g))
    else if |g| == 1 then
      if IsHexDigit(g[0]) then Ok(DigitValue(g[0])) else Err(BadHex(g))
    else if IsHexDigit(g[0]) && IsHexDigit(g[1]) then Ok(16 * DigitValue(g[0]) + DigitValue(g[1]))
    else if IsHexDigit(g[1]) && (IsBlank(g[0]) || g[0] == '+') then Ok(DigitValue(g[1]))
    else if IsHexDigit(g[1]) && g[0] == '-' then Ok(0 - DigitValue(g[1]) as int)
    else if IsHexDigit(g[0]) && IsBlank(g[1]) then Ok(DigitValue(g[0]))
    else Err(BadHex(g))
  }

  /** A group's value is what `int(g, 16)` makes of it, failure included. */
  lemma GroupParse(g: string)
    requires |g| <= 2
    ensures Group(g) == ParseHex(g)
  {
    if Group(g).Ok? {
      GroupAccepted(g);
    } else if ParseHex(g).Ok? {
      GroupRejected(g);
      assert false;
    }
  }

  /** Every group the table reads is read alike by `int(_, 16)`. */
  lemma GroupAccepted(g: string)
    requires |g| <= 2 && Group(g).Ok?
    ensures ParseHex(g) == Group(g)
  {
    if |g| == 1 {
      OneDigit(g[0]);
      assert g == [g[0]];
    } else if IsHexDigit(g[0]) && IsHexDigit(g[1]) {
      HexPair(g);
    } else if IsHexDigit(g[1]) && (IsBlank(g[0]) || g[0] == '+' || g[0] == '-') {
      if IsBlank(g[0]) {
        BlankDigit(g);
      } else {
        SignDigit(g);
      }
    } else {
      DigitBlank(g);
    }
  }

  lemma BlankDigit(g: string)
    requires |g| == 2 && IsBlank(g[0]) && IsHexDigit(g[1])
    ensures ParseHex(g) == Ok(DigitValue(g[1]))
  {
    OneDigit(g[1]);
    assert g == [g[0]] + "" + "" + [g[1]] + "";
    ParseHexLiteral([g[0]], "", "", [g[1]], "");
  }

  lemma SignDigit(g: string)
    requires |g| == 2 && (g[0] == '+' || g[0] == '-') && IsHexDigit(g[1])
    ensures ParseHex(g) == Ok(if g[0] == '-' then 0 - DigitValue(g[1]) else DigitValue(g[1]))
  {
    OneDigit(g[1]);
    assert g == "" + [g[0]] + "" + [g[1]] + "";
    ParseHexLiteral("", [g[0]], "", [g[1]], "");
  }

  lemma DigitBlank(g: string)
    requires |g| == 2 && IsHexDigit(g[0]) && IsBlank(g[1])
    ensures ParseHex(g) == Ok(DigitValue(g[0]))
  {
    OneDigit(g[0]);
    assert g == "" + "" + "" + [g[0]] + [g[1]];
    ParseHexLiteral("", "", "", [g[0]], [g[1]]);
  }

  /** One digit is a run worth the digit. */
  lemma OneDigit(c: char)
    requires IsHexDigit(c)
    ensures IsDigitRun([c]) && Digits([c]) == [c] && HexValue([c]) == DigitValue(c)
  {
    assert [c][..0] == [];
  }

  /** Every group `int(_, 16)` reads is one of the table's. */
  lemma GroupRejected(g: string)
    requires |g| <= 2 && ParseHex(g).Ok?
    ensures Group(g).Ok?
  {
    var lead, sign, prefix, run, trail := ParseHexOnlyLiterals(g);
    RunStart(run);
    ShortLiteral(g, lead, sign, prefix, run, trail);
  }

  /** The parts of a literal of at most two characters. */
  lemma ShortLiteral(g: string, lead: string, sign: string, prefix: string, run: string, trail: string)
    requires |g| <= 2 && g == lead + sign + prefix + run + trail
    requires AllBlank(lead) && AllBlank(trail) && IsSign(sign) && IsPrefix(prefix) && IsDigitRun(run)
    requires IsHexDigit(run[0])
    ensures Group(g).Ok?
  {
    assert |g| == |lead| + |sign| + |prefix| + |run| + |trail|;
    assert |prefix| == 0;
    if |run| == 2 {
      assert g == run;
      assert IsHexDigit(run[1]);
    } else if |lead| == 1 {
      assert g == lead + run;
      assert IsBlank(g[0]) && g[1] == run[0];
    } else if |sign| == 1 {
      assert g == sign + run;
      assert g[1] == run[0];
    } else if |trail| == 1 {
      assert g == run + trail;
      assert g[0] == run[0] && IsBlank(g[1]);
    } else {
      assert g == run;
    }
  }

  /** The sum of the consecutive two-character groups of `s`, as
      `int(s[i:i+2], 16)` for `i` in `range(0, len(s), 2)` (each read by
      `Group`, which `GroupParse` shows is `int`); a trailing single
      character is a group of its own. Any group `int` rejects fails the sum. */
  function ByteSum(s: string): (r: Result<int>)
    ensures |s| == 0 ==> r == Ok(0)
    decreases |s|
  {
    if |s| == 0 then Ok(0)
    else
      var n := if |s| < 2 then |s| else 2;
      var b :- Group(s[..n]);
      var rest :- ByteSum(s[n..]);
      Ok(b + rest)
  }

  /** `Memory.checksum(s)`: the byte sum modulo 256. The sum can be negative
      (`int("-1", 16)` is -1); Python's `& 0xff` then agrees with the
      Euclidean `% 256`. */
  function Checksum(s: string): (r: Result<int>)
    ensures r.Ok? <==> ByteSum(s).Ok?
    ensures r.Ok? ==> 0 <= r.value < 256 && r.value == ByteSum(s).value % 256
  {
    var sum :- ByteSum(s);
    Ok(sum % 256)
  }

  /** The loop of `Memory.checksum`, parsing each group with `int(_, 16)`. */
  method ComputeChecksum(s: string) returns (r: Result<int>)
    ensures r == Checksum(s)
  {
    var sum := 0;
    var i := 0;
    while i < |s|
      invariant 0 <= i <= |s|
      invariant ByteSum(s) == (match ByteSum(s[i..]) case Ok(v) => Ok(sum + v) case Err(f) => Err(f))
      decreases |s| - i
    {
      var j := if i + 2 <= |s| then i + 2 else |s|;
      assert s[i..][..j - i] == s[i..j];
      assert s[i..][j - i..] == s[j..];
      var b := ReadGroup(s[i..j]);
      if b.Err? {
        return Err(b.fault);
      }
      sum := sum + b.value;
      i := j;
    }
    assert s[i..] == [];
    return Ok(sum % 256);
  }

  /** `int(g, 16)` of one group of the loop. */
  method ReadGroup(g: string) returns (b: Result<int>)
    requires |g| <= 2
    ensures b == Group(g)
  {
    GroupParse(g);
    b := ParseHex(g);
  }

  /** A text of hex digits alone sums without failure. */
  lemma {:induction false} AllHexSum(s: string)
    requires AllHex(s)
    ensures ByteSum(s).Ok?
    decreases |s|
  {
    if |s| > 0 {
      var n := if |s| < 2 then |s| else 2;
      assert AllHex(s[..n]) && AllHex(s[n..]);
      AllHexSum(s[n..]);
    }
  }

  /** Changing one hex digit of a text that sums into another digit of a
      different value moves the sum by a nonzero amount less than 256. */
  lemma {:induction false} ByteSumFlip(s: string, i: nat, c: char) returns (delta: int)
    requires i < |s| && IsHexDigit(s[i]) && IsHexDigit(c) && DigitValue(c) != DigitValue(s[i])
    requires ByteSum(s).Ok?
    ensures ByteSum(s[i := c]).Ok? && ByteSum(s[i := c]).value == ByteSum(s).value + delta
    ensures 0 < delta < 256 || -256 < delta < 0
    decreases |s|
  {
    var n := if |s| < 2 then |s| else 2;
    var t := s[i := c];
    if i < n {
      assert t[..n] == s[..n][i := c] && t[n..] == s[n..];
      delta := GroupFlip(s[..n], i, c);
    } else {
      assert t[..n] == s[..n] && t[n..] == s[n..][i - n := c];
      delta := ByteSumFlip(s[n..], i - n, c);
    }
  }

  /** The same for one group: the digit counts once or sixteen times, with
      the group's sign. */
  lemma GroupFlip(g: string, k: nat, c: char) returns (delta: int)
    requires |g| <= 2 && k < |g| && IsHexDigit(g[k]) && IsHexDigit(c) && DigitValue(c) != DigitValue(g[k])
    requires Group(g).Ok?
    ensures Group(g[k := c]).Ok? && Group(g[k := c]).value == Group(g).value + delta
    ensures 0 < delta < 256 || -256 < delta < 0
  {
    NotBlankDigit(g[k]);
    NotBlankDigit(c);
    var d := DigitValue(c) - DigitValue(g[k]);
    if |g| == 2 && IsHexDigit(g[0]) && IsHexDigit(g[1]) && k == 0 {
      delta := 16 * d;
    } else if |g| == 2 && g[0] == '-' {
      delta := -d;
    } else {
      delta := d;
    }
  }

  lemma NotBlankDigit(c: char)
    requires IsHexDigit(c)
    ensures !IsBlank(c) && c != '+' && c != '-'
  {
  }

  /** A record whose checksum is 0 no longer checks after any one of its
      hex digits is changed into another. */
  lemma ChecksumDetectsFlip(s: string, i: nat, c: char)
    requires i < |s| && IsHexDigit(s[i]) && IsHexDigit(c) && DigitValue(c) != DigitValue(s[i])
    requires Checksum(s) == Ok(0)
    ensures Checksum(s[i := c]).Ok? && Checksum(s[i := c]) != Ok(0)
  {
    var delta := ByteSumFlip(s, i, c);
    NoWrap(ByteSum(s).value, delta);
  }

  lemma NoWrap(sum: int, delta: int)
    requires sum % 256 == 0 && (0 < delta < 256 || -256 < delta < 0)
    ensures (sum + delta) % 256 != 0
  {
    var q := sum / 256;
    assert sum == 256 * q;
    if delta > 0 {
      assert 256 * q < sum + delta < 256 * (q + 1);
    } else {
      assert 256 * (q - 1) < sum + delta < 256 * q;
    }
  }

  /** Byte sums of texts made of whole groups add up. */
  lemma {:induction false} ByteSumAppend(a: string, b: string)
    requires |a| % 2 == 0
    requires ByteSum(a).Ok? && ByteSum(b).Ok?
    ensures ByteSum(a + b) == Ok(ByteSum(a).value + ByteSum(b).value)
    decreases |a|
  {
    if |a| == 0 {
      assert a + b == b;
    } else {
      var s := a + b;
      assert s[..2] == a[..2];
      assert s[2..] == a[2..] + b;
      ByteSumStep(a, a[..2], a[2..]);
      ByteSumAppend(a[2..], b);
      ByteSumStep(s, a[..2], a[2..] + b);
    }
  }

  /** A text of two or more digits sums its first group and the rest. */
  lemma ByteSumStep(s: string, g: string, rest: string)
    requires |s| >= 2 && g == s[..2] && rest == s[2..]
    ensures ByteSum(s).Ok? <==> Group(g).Ok? && ByteSum(rest).Ok?
    ensures ByteSum(s).Ok? ==> ByteSum(s).value == Group(g).value + ByteSum(rest).value
  {
  }

  /** Two hex digits are one group. */
  lemma ByteSumOfByte(t: string)
    requires |t| == 2 && AllHex(t)
    ensures ByteSum(t) == Ok(HexValue(t))
  {
    assert t[..2] == t;
    assert t[2..] == [];
    HexPair(t);
  }

  /** A group in front of the rest adds its value to the sum. */
  lemma ByteSumCons(g: string, rest: string)
    requires |g| == 2 && AllHex(g) && ByteSum(rest).Ok?
    ensures ByteSum(g + rest) == Ok(16 * DigitValue(g[0]) + DigitValue(g[1]) + ByteSum(rest).value)
  {
    var s := g + rest;
    assert s[..2] == g;
    assert s[2..] == rest;
    ByteSumStep(s, g, rest);
  }

  /** The group at `i` of a text adds its value to the sum of what follows. */
  lemma ByteSumAt(s: string, i: nat, v: int)
    requires i + 2 <= |s| && IsHexDigit(s[i]) && IsHexDigit(s[i + 1])
    requires ByteSum(s[i + 2..]).Ok? && 16 * DigitValue(s[i]) + DigitValue(s[i + 1]) + ByteSum(s[i + 2..]).value == v
    ensures ByteSum(s[i..]) == Ok(v)
  {
    assert s[i..] == s[i..i + 2] + s[i + 2..];
    ByteSumCons(s[i..i + 2], s[i + 2..]);
  }

  /** Four hex digits are two groups: the high and the low byte of the word. */
  lemma WordBytes(t: string)
    requires |t| == 4 && AllHex(t)
    ensures AllHex(t[..2]) && AllHex(t[2..])
    ensures HexValue(t) / 256 == HexValue(t[..2]) && HexValue(t) % 256 == HexValue(t[2..])
  {
    var hi, lo := t[..2], t[2..];
    assert t == hi + lo;
    HexValueAppend(hi, lo);
    HexValueBound(lo);
    Bits.Pow2Bytes();
    SplitByte(HexValue(hi), HexValue(lo));
  }

  lemma SplitByte(h: nat, l: nat)
    requires l < 256
    ensures (h * 256 + l) / 256 == h && (h * 256 + l) % 256 == l
  {
  }

  /** The example record of the `checksum` documentation,
      `10010000214601360121470136007EFE09D2190140` (spelt out character by
      character), sums to 0x400 and so has checksum 0. */
  lemma DocumentedRecordChecksum(s: string)
    requires |s| == 42
    requires s[0] == '1' && s[1] == '0' && s[2] == '0' && s[3] == '1' && s[4] == '0' && s[5] == '0' && s[6] == '0' && s[7] == '0' && s[8] == '2' && s[9] == '1' && s[10] == '4' && s[11] == '6' && s[12] == '0' && s[13] == '1'
    requires s[14] == '3' && s[15] == '6' && s[16] == '0' && s[17] == '1' && s[18] == '2' && s[19] == '1' && s[20] == '4' && s[21] == '7' && s[22] == '0' && s[23] == '1' && s[24] == '3' && s[25] == '6' && s[26] == '0' && s[27] == '0'
    requires s[28] == '7' && s[29] == 'E' && s[30] == 'F' && s[31] == 'E' && s[32] == '0' && s[33] == '9' && s[34] == 'D' && s[35] == '2' && s[36] == '1' && s[37] == '9' && s[38] == '0' && s[39] == '1' && s[40] == '4' && s[41] == '0'
    ensures ByteSum(s) == Ok(0x400)
    ensures Checksum(s) == Ok(0)
  {
    assert s[42..] == [];
    DocumentedRecordPart1(s);
    DocumentedRecordPart2(s);
    DocumentedRecordPart3(s);
    assert s[0..] == s;
  }

  lemma DocumentedRecordPart1(s: string)
    requires |s| == 42 && s[28] == '7' && s[29] == 'E' && s[30] == 'F' && s[31] == 'E' && s[32] == '0' && s[33] == '9' && s[34] == 'D' && s[35] == '2' && s[36] == '1' && s[37] == '9' && s[38] == '0' && s[39] == '1' && s[40] == '4' && s[41] == '0'
    requires ByteSum(s[42..]) == Ok(0)
    ensures ByteSum(s[28..]) == Ok(689)
  {
    ByteSumAt(s, 40, 64);
    ByteSumAt(s, 38, 65);
    ByteSumAt(s, 36, 90);
    ByteSumAt(s, 34, 300);
    ByteSumAt(s, 32, 309);
    ByteSumAt(s, 30, 563);
    ByteSumAt(s, 28, 689);
  }

  lemma DocumentedRecordPart2(s: string)
    requires |s| == 42 && s[14] == '3' && s[15] == '6' && s[16] == '0' && s[17] == '1' && s[18] == '2' && s[19] == '1' && s[20] == '4' && s[21] == '7' && s[22] == '0' && s[23] == '1' && s[24] == '3' && s[25] == '6' && s[26] == '0' && s[27] == '0'
    requires ByteSum(s[28..]) == Ok(689)
    ensures ByteSum(s[14..]) == Ok(903)
  {
    ByteSumAt(s, 26, 689);
    ByteSumAt(s, 24, 743);
    ByteSumAt(s, 22, 744);
    ByteSumAt(s, 20, 815);
    ByteSumAt(s, 18, 848);
    ByteSumAt(s, 16, 849);
    ByteSumAt(s, 14, 903);
  }

  lemma DocumentedRecordPart3(s: string)
    requires |s| == 42 && s[0] == '1' && s[1] == '0' && s[2] == '0' && s[3] == '1' && s[4] == '0' && s[5] == '0' && s[6] == '0' && s[7] == '0' && s[8] == '2' && s[9] == '1' && s[10] == '4' && s[11] == '6' && s[12] == '0' && s[13] == '1'
    requires ByteSum(s[14..]) == Ok(903)
    ensures ByteSum(s[0..]) == Ok(1024)
  {
    ByteSumAt(s, 12, 904);
    ByteSumAt(s, 10, 974);
    ByteSumAt(s, 8, 1007);
    ByteSumAt(s, 6, 1007);
    ByteSumAt(s, 4, 1007);
    ByteSumAt(s, 2, 1008);
    ByteSumAt(s, 0, 1024);
  }

  /** What one line of a hex file stands for. */
  datatype Record =
    | EndOfFile                                   // type 01: loading stops
    | Ignored                                     // type 03: the line is skipped
    | Data(address: int, bytes: seq<int>)         // any other type: bytes from `address` on

  /** The bytes of a data record: `int(line[9+2i : 11+2i], 16)` for each of
      the `n` bytes it announces, read by `Group`. */
  function RecordBytes(line: string, n: nat): (r: Result<seq<int>>)
    ensures r.Ok? ==> |r.value| == n
    ensures r.Ok? ==> forall i :: 0 <= i < n ==> Group(Slice(line, 9 + 2 * i, 11 + 2 * i)) == Ok(r.value[i])
    ensures r.Err? <==> exists i :: 0 <= i < n && Group(Slice(line, 9 + 2 * i, 11 + 2 * i)).Err?
  {
    if n == 0 then Ok([])
    else
      var init :- RecordBytes(line, n - 1);
      var b :- Group(Slice(line, 9 + 2 * (n - 1), 11 + 2 * (n - 1)));
      Ok(init + [b])
  }

  /** One line of `load_intel`, as far as it does not depend on the file:
      it must start with ':', the bytes after the colon must sum to 0
      modulo 256, and the count, address and type fields must be numbers.
      A negative count, like `range` of one, announces no bytes. */
  function DecodeRecord(line: string): (r: Result<Record>)
    ensures |line| == 0 || line[0] != ':' ==> r == Err(NotARecord(line))
    ensures r.Ok? ==> Checksum(line[1..]) == Ok(0)
    ensures |line| > 0 && line[0] == ':' && Checksum(line[1..]).Ok? && Checksum(line[1..]) != Ok(0) ==>
      r == Err(ChecksumMismatch(line))
    ensures r.Ok? ==> Group(Slice(line, 7, 9)).Ok?
    ensures r == Ok(EndOfFile) ==> Group(Slice(line, 7, 9)) == Ok(1)
    ensures r == Ok(Ignored) ==> Group(Slice(line, 7, 9)) == Ok(3)
    ensures r.Ok? && r.value.Data? ==>
      && Group(Slice(line, 7, 9)).value !in {1, 3}
      && ParseHex(Slice(line, 3, 7)) == Ok(r.value.address)
      && Group(Slice(line, 1, 3)).Ok?
      && |r.value.bytes| == (if Group(Slice(line, 1, 3)).value < 0 then 0 else Group(Slice(line, 1, 3)).value)
      && RecordBytes(line, |r.value.bytes|) == Ok(r.value.bytes)
  {
    if |line| == 0 || line[0] != ':' then Err(NotARecord(line))
    else
      var sum :- Checksum(line[1..]);
      if sum != 0 then Err(ChecksumMismatch(line))
      else
        var count :- Group(Slice(line, 1, 3));
        var address :- ParseHex(Slice(line, 3, 7));
        var kind :- Group(Slice(line, 7, 9));
        if kind == 1 then Ok(EndOfFile)
        else if kind == 3 then Ok(Ignored)
        else
          var bytes :- RecordBytes(line, if count < 0 then 0 else count);
          Ok(Data(address, bytes))
  }

  /** The record `save_intel` ends every file with. */
  lemma EndOfFileRecord()
    ensures DecodeRecord(":00000001ff") == Ok(EndOfFile)
  {
    var line := ":00000001ff";
    assert line == ":" + ("00" + "0000" + "01" + "ff") + "";
    LineFields("00", "0000", "01", "ff", "");
    EndOfFileSum();
    assert line[1..] == "00" + "0000" + "01" + "ff";
    FixedGroups();
    EndOfFileAddress();
    EndOfFileLine(line);
  }

  lemma EndOfFileAddress()
    ensures ParseHex("0000") == Ok(0)
  {
    FixedGroups();
    HexValueAppend("00", "00");
    assert "00" + "00" == "0000";
  }

  /** A line whose type field reads 1 and whose bytes sum to 0 modulo 256
      ends the file. */
  lemma EndOfFileLine(line: string)
    requires |line| > 0 && line[0] == ':' && Checksum(line[1..]) == Ok(0)
    requires Group(Slice(line, 1, 3)).Ok? && ParseHex(Slice(line, 3, 7)).Ok?
    requires Group(Slice(line, 7, 9)) == Ok(1)
    ensures DecodeRecord(line) == Ok(EndOfFile)
  {
  }

  /** The end-of-file record's count, address, type and checksum bytes. */
  lemma EndOfFileSum()
    ensures Checksum("00" + "0000" + "01" + "ff") == Ok(0)
  {
    assert HexValue("00") == 0 && HexValue("01") == 1 && HexValue("ff") == 255 by {
      HexPair("00");
      HexPair("01");
      HexPair("ff");
    }
    assert HexValue("0000") == 0 by {
      HexValueAppend("00", "00");
      assert "00" + "00" == "0000";
    }
    ByteSumOfFields("00", "0000", "01", "ff", "");
    assert "00" + "0000" + "01" + "ff" + "" == "00" + "0000" + "01" + "ff";
  }

  /** The `for` loop of `load_intel` over the data bytes of one record:
      `Memory.write(address + i, byte)` for each byte in turn. */
  function LoadBytes(m: Memory, address: int, bytes: seq<int>): (r: Result<Memory>)
    ensures r.Ok? ==> SameLayout(m, r.value)
    decreases |bytes|
  {
    if |bytes| == 0 then Ok(m)
    else
      match Write(m, address, bytes[0])
      case Err(f) => Err(f)
      case Ok(m1) =>
        var r := LoadBytes(m1, address + 1, bytes[1..]);
        if r.Ok? then SameLayoutTrans(m, m1, r.value); r else r
  }

  /** Loading a record fails exactly when one of its addresses lies in no
      area, and then with the first such address. */
  lemma {:induction false} LoadBytesMapped(m: Memory, address: int, bytes: seq<int>)
    ensures LoadBytes(m, address, bytes).Ok? <==> forall x :: address <= x < address + |bytes| ==> Locate(m, x).Some?
    decreases |bytes|
  {
    if |bytes| > 0 {
      match Write(m, address, bytes[0])
      case Err(_) =>
      case Ok(m1) =>
        LoadBytesMapped(m1, address + 1, bytes[1..]);
        forall x ensures Locate(m1, x) == Locate(m, x) {
          SameLayoutLocates(m, m1, x);
        }
    }
  }

  /** Loading a data record leaves every cell outside its bytes as it was. */
  lemma {:induction false} LoadBytesFrame(m: Memory, address: int, bytes: seq<int>, x: int)
    requires LoadBytes(m, address, bytes).Ok?
    requires !(address <= x < address + |bytes|)
    ensures CellAt(LoadBytes(m, address, bytes).value, x) == CellAt(m, x)
    decreases |bytes|
  {
    if |bytes| > 0 {
      var m1 := Write(m, address, bytes[0]).value;
      assert LoadBytes(m, address, bytes) == LoadBytes(m1, address + 1, bytes[1..]);
      LoadBytesFrame(m1, address + 1, bytes[1..], x);
      WriteFrame(m, address, bytes[0], x);
    }
  }

  /** After a data record is loaded, each of its bytes sits in the cell of
      its address. */
  lemma {:induction false} LoadBytesCell(m: Memory, address: int, bytes: seq<int>, x: int)
    requires LoadBytes(m, address, bytes).Ok?
    requires address <= x < address + |bytes|
    ensures CellAt(LoadBytes(m, address, bytes).value, x) == Some(Some(bytes[x - address]))
    decreases |bytes|, 1
  {
    if x == address {
      LoadBytesHead(m, address, bytes);
    } else {
      LoadBytesTail(m, address, bytes, x);
    }
  }

  /** The bytes after the first land where loading the rest puts them. */
  lemma {:induction false} LoadBytesTail(m: Memory, address: int, bytes: seq<int>, x: int)
    requires LoadBytes(m, address, bytes).Ok?
    requires address < x < address + |bytes|
    ensures CellAt(LoadBytes(m, address, bytes).value, x) == Some(Some(bytes[x - address]))
    decreases |bytes|, 0
  {
    var m1 := LoadBytesStep(m, address, bytes);
    LoadBytesCell(m1, address + 1, bytes[1..], x);
    assert bytes[1..][x - (address + 1)] == bytes[x - address];
  }

  /** Loading a record is writing its first byte and loading the rest. */
  lemma LoadBytesStep(m: Memory, address: int, bytes: seq<int>) returns (m1: Memory)
    requires LoadBytes(m, address, bytes).Ok? && |bytes| > 0
    ensures Write(m, address, bytes[0]) == Ok(m1)
    ensures LoadBytes(m, address, bytes) == LoadBytes(m1, address + 1, bytes[1..])
  {
    m1 := Write(m, address, bytes[0]).value;
  }

  /** The first byte of a record lands at the record's address. */
  lemma LoadBytesHead(m: Memory, address: int, bytes: seq<int>)
    requires LoadBytes(m, address, bytes).Ok? && |bytes| > 0
    ensures CellAt(LoadBytes(m, address, bytes).value, address) == Some(Some(bytes[0]))
  {
    var m1 := Write(m, address, bytes[0]).value;
    assert LoadBytes(m, address, bytes) == LoadBytes(m1, address + 1, bytes[1..]);
    LoadBytesFrame(m1, address + 1, bytes[1..], address);
  }

  lemma SameLayoutTrans(m0: Memory, m1: Memory, m2: Memory)
    requires SameLayout(m0, m1) && SameLayout(m1, m2)
    ensures SameLayout(m0, m2)
  {
  }

  /** Applying one decoded record to the address space. */
  function LoadRecord(m: Memory, rec: Record): (r: Result<Memory>)
    ensures !rec.Data? ==> r == Ok(m)
    ensures rec.Data? ==> r == LoadBytes(m, rec.address, rec.bytes)
  {
    match rec
    case Data(address, bytes) => LoadBytes(m, address, bytes)
    case _ => Ok(m)
  }

  /** The text `save_intel` builds for the initialized cell `addr` holding
      `b`, after the colon: byte count 1, the address, type 0, the byte. */
  function RecordBody(addr: nat, b: nat): (s: string)
    ensures AllHex(s) && ByteSum(s).Ok?
    ensures addr < 0x1_0000 && b < 256 ==> |s| == 10
  {
    Bits.Pow2Bytes();
    var s := "01" + FormatHex(addr, 4) + "00" + FormatHex(b, 2);
    assert AllHex("01") && AllHex("00");
    AllHexSum(s);
    s
  }

  /** The two digits `save_intel` appends: `(256 - checksum(body)) & 0xff`. */
  function Fill(body: string): (f: nat)
    requires ByteSum(body).Ok?
    ensures f < 256
    ensures (ByteSum(body).value + f) % 256 == 0
  {
    var cs := Checksum(body).value;
    Complement(ByteSum(body).value);
    (256 - cs) % 256
  }

  lemma Complement(sum: int)
    ensures (sum + (256 - sum % 256) % 256) % 256 == 0
  {
  }

  /** The line `save_intel` writes for the initialized cell `addr` holding
      `b`: `":01{:04x}00{:02x}"` followed by the two digits that bring the
      byte sum to a multiple of 256. */
  function EncodeRecord(addr: nat, b: nat): (line: string)
    ensures |line| > 0 && line[0] == ':'
    ensures addr < 0x1_0000 && b < 256 ==> |line| == 13
  {
    var body := RecordBody(addr, b);
    Bits.Pow2Bytes();
    ":" + body + FormatHex(Fill(body), 2)
  }

  /** Groups of two, four, two and two digits in front of whole groups add
      up group by group. */
  lemma ByteSumOfFields(c: string, a: string, t: string, v: string, rest: string)
    requires |c| == 2 && |a| == 4 && |t| == 2 && |v| == 2
    requires AllHex(c) && AllHex(a) && AllHex(t) && AllHex(v) && ByteSum(rest).Ok?
    ensures ByteSum(c + a + t + v + rest) ==
      Ok(HexValue(c) + HexValue(a) / 256 + HexValue(a) % 256 + HexValue(t) + HexValue(v) + ByteSum(rest).value)
  {
    WordBytes(a);
    var hi, lo := a[..2], a[2..];
    var r3 := t + (v + rest);
    ByteSumGroup(v, rest);
    ByteSumGroup(t, v + rest);
    ByteSumGroup(lo, r3);
    ByteSumGroup(hi, lo + r3);
    ByteSumGroup(c, hi + (lo + r3));
    Regroup(c, a, t, v, rest, hi, lo);
  }

  lemma Regroup(c: string, a: string, t: string, v: string, rest: string, hi: string, lo: string)
    requires |a| == 4 && hi == a[..2] && lo == a[2..]
    ensures c + a + t + v + rest == c + (hi + (lo + (t + (v + rest))))
  {
    assert a == hi + lo;
  }

  /** A leading group of two digits adds its value to the sum. */
  lemma ByteSumGroup(g: string, rest: string)
    requires |g| == 2 && AllHex(g) && ByteSum(rest).Ok?
    ensures ByteSum(g + rest) == Ok(HexValue(g) + ByteSum(rest).value)
  {
    ByteSumCons(g, rest);
    HexPair(g);
  }

  /** The bytes of the body are the count, the two address bytes, the type
      and the data byte. */
  lemma RecordBodySum(addr: nat, b: nat)
    requires addr < 0x1_0000 && b < 256
    ensures ByteSum(RecordBody(addr, b)) == Ok(1 + addr / 256 + addr % 256 + b)
  {
    var a, v := FormatHex(addr, 4), FormatHex(b, 2);
    FieldDigits(addr, b);
    FixedGroups();
    ByteSumOfFields("01", a, "00", v, "");
    assert RecordBody(addr, b) == "01" + a + "00" + v + "";
  }

  /** The address and data fields of a record spell their values in four
      and two digits. */
  lemma FieldDigits(addr: nat, b: nat)
    requires addr < 0x1_0000 && b < 256
    ensures var a := FormatHex(addr, 4); |a| == 4 && AllHex(a) && HexValue(a) == addr
    ensures var v := FormatHex(b, 2); |v| == 2 && AllHex(v) && HexValue(v) == b
  {
    Bits.Pow2Bytes();
  }

  /** The count and type fields of a one-byte data record. */
  lemma FixedGroups()
    ensures AllHex("01") && HexValue("01") == 1 && Group("01") == Ok(1)
    ensures AllHex("00") && HexValue("00") == 0 && Group("00") == Ok(0)
  {
    HexPair("01");
    HexPair("00");
  }

  /** Two hex digits are a group worth their value. */
  lemma GroupPair(g: string)
    requires |g| == 2 && AllHex(g)
    ensures Group(g) == Ok(HexValue(g))
  {
    HexPair(g);
  }

  /** Appending the two fill digits to a body of whole groups brings its
      byte sum to a multiple of 256. */
  lemma BodyWithFill(body: string)
    requires |body| % 2 == 0 && ByteSum(body).Ok?
    ensures Checksum(body + FormatHex(Fill(body), 2)) == Ok(0)
  {
    var k := FormatHex(Fill(body), 2);
    FillGroup(Fill(body), k);
    AppendFill(body, k);
  }

  /** The two digits of a fill are one group worth the fill. */
  lemma FillGroup(fill: nat, k: string)
    requires fill < 256 && k == FormatHex(fill, 2)
    ensures ByteSum(k) == Ok(fill)
  {
    Bits.Pow2Bytes();
    ByteSumOfByte(k);
  }

  /** A group worth the fill completes the sum to a multiple of 256. */
  lemma AppendFill(body: string, k: string)
    requires |body| % 2 == 0 && ByteSum(body).Ok? && ByteSum(k) == Ok(Fill(body))
    ensures Checksum(body + k) == Ok(0)
  {
    ByteSumAppend(body, k);
    ChecksumOfSum(body + k, ByteSum(body).value + Fill(body));
  }

  lemma ChecksumOfSum(s: string, total: int)
    requires ByteSum(s) == Ok(total)
    ensures Checksum(s) == Ok(total % 256)
  {
  }

  /** The bytes of an encoded record, colon excluded, sum to 0 modulo 256. */
  lemma EncodeRecordChecksum(addr: nat, b: nat)
    requires addr < 0x1_0000 && b < 256
    ensures Checksum(EncodeRecord(addr, b)[1..]) == Ok(0)
  {
    var body := RecordBody(addr, b);
    var k := FormatHex(Fill(body), 2);
    RecordBodySum(addr, b);
    BodyWithFill(body);
    DropColon(body, k);
  }

  lemma DropColon(body: string, c: string)
    ensures (":" + body + c)[1..] == body + c
  {
  }

  /** The fields of a line made of a colon, count, address, type, data
      byte and checksum of two, four, two, two and two digits. */
  lemma LineFields(c: string, a: string, t: string, v: string, k: string)
    requires |c| == 2 && |a| == 4 && |t| == 2 && |v| == 2
    ensures var line := ":" + (c + a + t + v) + k;
      && Slice(line, 1, 3) == c && Slice(line, 3, 7) == a
      && Slice(line, 7, 9) == t && Slice(line, 9, 11) == v
  {
    var body := c + a + t + v;
    var line := ":" + body + k;
    assert line[1..11] == body;
    Field(body, c, [], a + t + v);
    Field(body, a, c, t + v);
    Field(body, t, c + a, v);
    Field(body, v, c + a + t, []);
  }

  /** A field `f` of `s` with `x` in front of it, found past the colon. */
  lemma Field(s: string, f: string, x: string, z: string)
    requires s == x + f + z
    ensures (":" + s)[1 + |x|..1 + |x| + |f|] == f
  {
    assert (":" + s)[1..] == s;
  }

  /** A one-byte record whose data field reads `b`. */
  lemma OneByte(line: string, b: int)
    requires Group(Slice(line, 9, 11)) == Ok(b)
    ensures RecordBytes(line, 1) == Ok([b])
  {
    assert RecordBytes(line, 0) == Ok([]);
    assert Slice(line, 9 + 2 * (1 - 1), 11 + 2 * (1 - 1)) == Slice(line, 9, 11);
    assert [] + [b] == [b];
  }

  /** A record `save_intel` writes decodes, on loading, to the very byte at
      the very address. */
  lemma EncodeDecodeRecord(addr: nat, b: nat)
    requires addr < 0x1_0000 && b < 256
    ensures DecodeRecord(EncodeRecord(addr, b)) == Ok(Data(addr, [b]))
  {
    EncodeRecordChecksum(addr, b);
    var line := EncodeRecord(addr, b);
    var a, v := FormatHex(addr, 4), FormatHex(b, 2);
    var k := FormatHex(Fill(RecordBody(addr, b)), 2);
    Bits.Pow2Bytes();
    LineFields("01", a, "00", v, k);
    assert line == ":" + ("01" + a + "00" + v) + k;
    FixedGroups();
    FormatParse(addr, 4);
    GroupPair(v);
    DataLine(line, addr, b);
  }

  /** A checked line announcing one byte of type 0 at `addr` is that byte
      at that address. */
  lemma DataLine(line: string, addr: int, b: int)
    requires |line| > 0 && line[0] == ':' && Checksum(line[1..]) == Ok(0)
    requires Group(Slice(line, 1, 3)) == Ok(1) && ParseHex(Slice(line, 3, 7)) == Ok(addr)
    requires Group(Slice(line, 7, 9)) == Ok(0) && Group(Slice(line, 9, 11)) == Ok(b)
    ensures DecodeRecord(line) == Ok(Data(addr, [b]))
  {
    OneByte(line, b);
  }
}
