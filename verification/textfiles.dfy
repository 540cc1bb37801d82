/** The pieces of the C library that the text files of the server go through:
    `%d`, atoi, fgets and strtok_r. */
module TextFiles {
  import opened CBytes

  // Decimal numbers

  predicate IsDigit(b: Byte) {
    48 <= b <= 57
  }

  function PrintNat(n: nat): (r: Bytes)
    ensures r != [] && forall i :: 0 <= i < |r| ==> IsDigit(r[i])
  {
    if n < 10 then [48 + n] else PrintNat(n / 10) + [48 + n % 10]
  }

  /** `%d` */
  function PrintInt(n: int): (r: Bytes)
    ensures r != []
    ensures forall i :: 0 <= i < |r| ==> IsDigit(r[i]) || r[i] == MINUS
  {
    if n < 0 then [MINUS] + PrintNat(-n) else PrintNat(n)
  }

  /** The number that the longest digit prefix of s denotes, read after acc. */
  function DigitsValue(s: Bytes, acc: nat): nat {
    if s == [] || !IsDigit(s[0]) then acc else DigitsValue(s[1..], 10 * acc + (s[0] - 48))
  }

  predicate IsWhite(b: Byte) {
    b == SPACE || 9 <= b <= 13
  }

  function SkipWhite(s: Bytes): Bytes {
    if s == [] || !IsWhite(s[0]) then s else SkipWhite(s[1..])
  }

  /** strtol saturates at 64 bits; the conversion to int then wraps at 32. */
  function ToInt32(n: int): (r: int)
    ensures -0x8000_0000 <= r < 0x8000_0000
    ensures -0x8000_0000 <= n < 0x8000_0000 ==> r == n
  {
    var long := if n < -0x8000_0000_0000_0000 then -0x8000_0000_0000_0000
                else if n > 0x7FFF_FFFF_FFFF_FFFF then 0x7FFF_FFFF_FFFF_FFFF else n;
    var low := long % UINT32_SIZE;
    if low < 0x8000_0000 then low else low - UINT32_SIZE
  }

  function Atoi(s: Bytes): (r: int)
    ensures -0x8000_0000 <= r < 0x8000_0000
  {
    var t := SkipWhite(s);
    if t != [] && t[0] == MINUS then var n: int := DigitsValue(t[1..], 0); ToInt32(-n)
    else if t != [] && t[0] == 43 then ToInt32(DigitsValue(t[1..], 0))
    else ToInt32(DigitsValue(t, 0))
  }

  lemma {:induction false} DigitsSnoc(s: Bytes, d: Byte, acc: nat)
    requires IsDigit(d) && forall i :: 0 <= i < |s| ==> IsDigit(s[i])
    ensures DigitsValue(s + [d], acc) == 10 * DigitsValue(s, acc) + (d - 48)
  {
    if s == [] {
      assert (s + [d])[1..] == [];
    } else {
      assert (s + [d])[1..] == s[1..] + [d];
      DigitsSnoc(s[1..], d, 10 * acc + (s[0] - 48));
    }
  }

  lemma {:induction false} PrintNatValue(n: nat)
    ensures DigitsValue(PrintNat(n), 0) == n
  {
    if n < 10 {
      assert PrintNat(n)[1..] == [];
    } else {
      PrintNatValue(n / 10);
      DigitsSnoc(PrintNat(n / 10), 48 + n % 10, 0);
    }
  }

  /** atoi undoes `%d` on every int. */
  lemma AtoiUndoesPrint(n: int)
    requires -0x8000_0000 <= n < 0x8000_0000
    ensures Atoi(PrintInt(n)) == n
  {
    var s := PrintInt(n);
    assert IsDigit(s[0]) || s[0] == MINUS;
    assert SkipWhite(s) == s;
    if n < 0 {
      assert s[1..] == PrintNat(-n);
      PrintNatValue(-n);
    } else {
      assert IsDigit(PrintNat(n)[0]);
      PrintNatValue(n);
    }
  }

  lemma {:induction false} DigitsStop(s: Bytes, rest: Bytes, acc: nat)
    requires forall i :: 0 <= i < |s| ==> IsDigit(s[i])
    requires rest == [] || !IsDigit(rest[0])
    ensures DigitsValue(s + rest, acc) == DigitsValue(s, acc)
  {
    if s == [] {
      assert s + rest == rest;
    } else {
      assert (s + rest)[1..] == s[1..] + rest;
      DigitsStop(s[1..], rest, 10 * acc + (s[0] - 48));
    }
  }

  lemma {:induction false} WhiteSkipped(k: nat, s: Bytes)
    requires s != [] && !IsWhite(s[0])
    ensures SkipWhite(seq(k, _ => SPACE) + s) == s
  {
    var padded := seq(k, _ => SPACE) + s;
    if k == 0 {
      assert padded == s;
    } else {
      assert padded[1..] == seq(k - 1, _ => SPACE) + s;
      WhiteSkipped(k - 1, s);
    }
  }

  /** atoi skips spaces, reads one number, and ignores what follows it. */
  lemma AtoiReadsNumber(k: nat, n: int, rest: Bytes)
    requires -0x8000_0000 <= n < 0x8000_0000
    requires rest == [] || !IsDigit(rest[0])
    ensures Atoi(seq(k, _ => SPACE) + (PrintInt(n) + rest)) == n
    ensures n >= 0 ==> Atoi(seq(k, _ => SPACE) + ([43] + PrintInt(n) + rest)) == n
    ensures rest != [] && rest[0] != 43 && rest[0] != MINUS && !IsWhite(rest[0]) ==> Atoi(rest) == 0
  {
    var s := PrintInt(n);
    assert IsDigit(s[0]) || s[0] == MINUS;
    WhiteSkipped(k, s + rest);
    WhiteSkipped(k, [43] + s + rest);
    if n < 0 {
      PrintNatValue(-n);
      DigitsStop(PrintNat(-n), rest, 0);
      assert (s + rest)[1..] == PrintNat(-n) + rest;
    } else {
      assert IsDigit(PrintNat(n)[0]);
      PrintNatValue(n);
      DigitsStop(PrintNat(n), rest, 0);
      assert ([43] + s + rest)[1..] == s + rest;
    }
  }

  function Pow10(k: nat): nat {
    if k == 0 then 1 else 10 * Pow10(k - 1)
  }

  lemma {:induction false} PrintNatLength(n: nat, k: nat)
    requires k > 0 && n < Pow10(k)
    ensures |PrintNat(n)| <= k
  {
    if n >= 10 {
      assert k > 1;
      PrintNatLength(n / 10, k - 1);
    }
  }

  lemma PrintIntLength(n: int)
    requires -0x8000_0000 <= n < 0x8000_0000
    ensures |PrintInt(n)| <= 11
  {
    assert Pow10(5) == 100000 && Pow10(10) == 10000000000;
    PrintNatLength(if n < 0 then -n else n, 10);
  }

  // fgets (section 7.21.7.2 of C11)

  datatype Line = Line(text: Bytes, rest: Bytes)

  /** One fgets into a buffer of the given size: None at the end of the file. */
  function Fgets(file: Bytes, size: nat): (r: Option<Line>)
    requires size >= 2
    ensures r.None? <==> file == []
    ensures r.Some? ==> r.value.text != [] && r.value.text + r.value.rest == file
    ensures r.Some? ==> |r.value.text| < size && |r.value.rest| < |file|
  {
    if file == [] then
      None
    else
      var end := IndexOf(file, NEWLINE);
      var n := Min(Min(end + 1, |file|), size - 1);
      Some(Line(file[..n], file[n..]))
  }

  /** A line that fits the buffer is read whole. */
  lemma FgetsLine(text: Bytes, rest: Bytes, size: nat)
    requires NEWLINE !in text && |text| + 2 <= size
    ensures Fgets(text + [NEWLINE] + rest, size) == Some(Line(text + [NEWLINE], rest))
  {
    var file := text + [NEWLINE] + rest;
    assert file[..|text|] == text;
    IndexOfUnique(file, NEWLINE, |text|);
    assert file[..|text| + 1] == text + [NEWLINE];
    assert file[|text| + 1..] == rest;
  }

  /** The line as the parsers see it: up to the first NUL, without the newline. */
  function Content(text: Bytes): (r: Bytes)
    ensures NUL !in r && NEWLINE !in r && r <= text
  {
    var s := CStr(text);
    s[..IndexOf(s, NEWLINE)]
  }

  lemma ContentOf(text: Bytes)
    requires NUL !in text && NEWLINE !in text
    ensures Content(text + [NEWLINE]) == text
  {
    var s := text + [NEWLINE];
    assert s == s + [];
    CStrOf(s, []);
    assert s[..|text|] == text;
    IndexOfUnique(s, NEWLINE, |text|);
  }

  // strtok_r (section 7.24.5.8 of C11)

  datatype Token = Token(text: Bytes, rest: Bytes)

  /** One strtok_r step: the next maximal run of bytes other than d. */
  function StrTok(s: Bytes, d: Byte): (r: Option<Token>)
    ensures r.Some? ==> r.value.text != [] && d !in r.value.text
    ensures r.Some? ==> |r.value.text| + |r.value.rest| + (if r.value.rest == [] then 0 else 1) <= |s|
    ensures r.Some? ==> forall b :: b in r.value.text ==> b in s
    ensures r.Some? ==> forall b :: b in r.value.rest ==> b in s
  {
    if s == [] then
      None
    else if s[0] == d then
      StrTok(s[1..], d)
    else
      var end := IndexOf(s, d);
      Some(Token(s[..end], if end == |s| then [] else s[end + 1..]))
  }

  lemma StrTokField(text: Bytes, d: Byte, rest: Bytes)
    requires text != [] && d !in text
    ensures StrTok(text + [d] + rest, d) == Some(Token(text, rest))
    ensures StrTok(text, d) == Some(Token(text, []))
  {
    var s := text + [d] + rest;
    assert s[..|text|] == text;
    IndexOfUnique(s, d, |text|);
    assert s[|text| + 1..] == rest;
    assert text[..|text|] == text;
    IndexOfUnique(text, d, |text|);
  }

  /** Delimiters before a token are skipped, so that there are no empty fields. */
  lemma {:induction false} StrTokSkips(n: nat, d: Byte, s: Bytes)
    ensures StrTok(seq(n, _ => d) + s, d) == StrTok(s, d)
  {
    var padded := seq(n, _ => d) + s;
    if n == 0 {
      assert padded == s;
    } else {
      assert padded[1..] == seq(n - 1, _ => d) + s;
      StrTokSkips(n - 1, d, s);
    }
  }
}
