/** The string operations of Rust's standard library that the source relies on:
    `str::trim`, `str::split` on one character, `[String]::join`, decimal formatting of
    integers and `u8::from_str`. */
module Text {
  import opened Results

  /** The characters with the Unicode `White_Space` property, which `str::trim` removes. */
  predicate IsWhitespace(c: char) {
    c == '\t' || c == '\n' || c == '\U{B}' || c == '\U{C}' || c == '\r' || c == ' '
    || c == '\U{85}' || c == '\U{A0}' || c == '\U{1680}' || ('\U{2000}' <= c <= '\U{200A}')
    || c == '\U{2028}' || c == '\U{2029}' || c == '\U{202F}' || c == '\U{205F}' || c == '\U{3000}'
  }

  // ----- trim -----

  function TrimStart(s: string): (r: string)
    ensures |r| <= |s| && r == s[|s| - |r|..]
    ensures forall i :: 0 <= i < |s| - |r| ==> IsWhitespace(s[i])
    ensures |r| > 0 ==> !IsWhitespace(r[0])
  {
    if |s| > 0 && IsWhitespace(s[0]) then TrimStart(s[1..]) else s
  }

  function TrimEnd(s: string): (r: string)
    ensures |r| <= |s| && r == s[..|r|]
    ensures forall i :: |r| <= i < |s| ==> IsWhitespace(s[i])
    ensures |r| > 0 ==> !IsWhitespace(r[|r| - 1])
  {
    if |s| > 0 && IsWhitespace(s[|s| - 1]) then TrimEnd(s[..|s| - 1]) else s
  }

  /** `str::trim`: drops leading and trailing white space. */
  function Trim(s: string): string {
    TrimEnd(TrimStart(s))
  }

  /** Trimming a string that neither starts nor ends with white space returns it unchanged. */
  lemma TrimUnchanged(s: string)
    requires |s| > 0 ==> !IsWhitespace(s[0]) && !IsWhitespace(s[|s| - 1])
    ensures Trim(s) == s
  {
  }

  /** Every character `Trim` drops is white space, and what remains starts and ends with
      something else. */
  lemma TrimSpec(s: string)
    ensures var k := |s| - |TrimStart(s)|; var r := Trim(s);
      k + |r| <= |s| && r == s[k..k + |r|]
      && (forall i :: 0 <= i < k ==> IsWhitespace(s[i]))
      && (forall i :: k + |r| <= i < |s| ==> IsWhitespace(s[i]))
      && (|r| > 0 ==> !IsWhitespace(r[0]) && !IsWhitespace(r[|r| - 1]))
  {
    var t := TrimStart(s);
    var r := TrimEnd(t);
    var k := |s| - |t|;
    SliceOfSuffix(s, k, |r|);
    TrailingWhitespace(s, k, |r|);
    if |r| > 0 {
      assert r[0] == t[0];
    }
  }

  lemma SliceOfSuffix<T>(s: seq<T>, k: nat, n: nat)
    requires k + n <= |s|
    ensures s[k..][..n] == s[k..k + n]
  {
  }

  lemma InitOfSnoc<T>(xs: seq<T>, x: T)
    ensures (xs + [x])[..|xs|] == xs
  {
  }

  /** White space at the end of `s[k..]` from position `n` on is white space at the end of
      `s` from `k + n` on. */
  lemma TrailingWhitespace(s: string, k: nat, n: nat)
    requires k + n <= |s|
    requires forall i :: n <= i < |s| - k ==> IsWhitespace(s[k..][i])
    ensures forall i :: k + n <= i < |s| ==> IsWhitespace(s[i])
  {
    forall i | k + n <= i < |s|
      ensures IsWhitespace(s[i])
    {
      assert s[i] == s[k..][i - k];
    }
  }

  // ----- split and join -----

  /** `str::split` on one character, collected: always at least one part, and no part
      contains the separator. */
  function Split(s: string, sep: char): (parts: seq<string>)
    ensures |parts| >= 1
    ensures forall i :: 0 <= i < |parts| ==> sep !in parts[i]
    ensures |parts| == 1 <==> sep !in s
    decreases |s|
  {
    if |s| == 0 then [""]
    else
      var rest := Split(s[1..], sep);
      if s[0] == sep then [""] + rest
      else [[s[0]] + rest[0]] + rest[1..]
  }

  /** `[String]::join`. */
  function Join(parts: seq<string>, sep: string): string
    decreases |parts|
  {
    if |parts| == 0 then ""
    else if |parts| == 1 then parts[0]
    else parts[0] + sep + Join(parts[1..], sep)
  }

  lemma JoinCons(p: string, rest: seq<string>, sep: string)
    requires |rest| >= 1
    ensures Join([p] + rest, sep) == p + sep + Join(rest, sep)
  {
    assert ([p] + rest)[1..] == rest;
  }

  /** A character in no part and not in the separator is not in the joined string. */
  lemma {:induction false} JoinAvoids(parts: seq<string>, sep: string, c: char)
    requires forall i :: 0 <= i < |parts| ==> c !in parts[i]
    requires c !in sep
    ensures c !in Join(parts, sep)
    decreases |parts|
  {
    if |parts| > 1 {
      JoinAvoids(parts[1..], sep, c);
    }
  }

  function LastPart(s: string, sep: char): string {
    var parts := Split(s, sep);
    parts[|parts| - 1]
  }

  /** Joining the parts of a split with the same separator gives back the string. */
  lemma {:induction false} JoinSplit(s: string, sep: char)
    ensures Join(Split(s, sep), [sep]) == s
    decreases |s|
  {
    if |s| > 0 {
      var rest := Split(s[1..], sep);
      JoinSplit(s[1..], sep);
      if s[0] == sep {
        assert Split(s, sep) == [""] + rest;
        assert Join([""] + rest, [sep]) == "" + [sep] + Join(rest, [sep]);
      } else {
        var parts := Split(s, sep);
        assert parts == [[s[0]] + rest[0]] + rest[1..];
        if |rest| == 1 {
          assert Join(parts, [sep]) == [s[0]] + rest[0];
        } else {
          assert Join(rest, [sep]) == rest[0] + [sep] + Join(rest[1..], [sep]);
          assert Join(parts, [sep]) == ([s[0]] + rest[0]) + [sep] + Join(rest[1..], [sep]);
        }
        assert s == [s[0]] + s[1..];
      }
    }
  }

  lemma {:induction false} SplitPrefix(p: string, t: string, sep: char)
    requires sep !in p
    ensures Split(p + t, sep) == [p + Split(t, sep)[0]] + Split(t, sep)[1..]
    decreases |p|
  {
    if |p| > 0 {
      SplitPrefix(p[1..], t, sep);
      assert (p + t)[1..] == p[1..] + t;
      assert (p + t)[0] == p[0];
      assert [p[0]] + (p[1..] + Split(t, sep)[0]) == p + Split(t, sep)[0];
    } else {
      var ts := Split(t, sep);
      assert p + t == t;
      assert p + ts[0] == ts[0];
      assert ts == [ts[0]] + ts[1..];
    }
  }

  /** Splitting parts joined by a separator none of them contains gives the parts back. */
  lemma {:induction false} SplitJoin(parts: seq<string>, sep: char)
    requires |parts| >= 1
    requires forall i :: 0 <= i < |parts| ==> sep !in parts[i]
    ensures Split(Join(parts, [sep]), sep) == parts
    decreases |parts|
  {
    if |parts| == 1 {
      SplitPrefix(parts[0], "", sep);
      assert parts[0] + "" == parts[0];
    } else {
      var tail := Join(parts[1..], [sep]);
      SplitJoin(parts[1..], sep);
      assert Join(parts, [sep]) == parts[0] + ([sep] + tail);
      SplitPrefix(parts[0], [sep] + tail, sep);
      assert ([sep] + tail)[1..] == tail;
      assert Split([sep] + tail, sep) == [""] + parts[1..];
      assert parts[0] + "" == parts[0];
    }
  }

  /** The last part of a split is a suffix of the string without the separator, and it is
      either the whole string or preceded by the separator. */
  lemma {:induction false} LastPartSpec(s: string, sep: char)
    ensures var r := LastPart(s, sep);
      |r| <= |s| && r == s[|s| - |r|..] && sep !in r
      && (|r| == |s| <==> sep !in s)
      && (|r| < |s| ==> s[|s| - |r| - 1] == sep)
    decreases |s|
  {
    if |s| > 0 {
      LastPartSpec(s[1..], sep);
      var rest := Split(s[1..], sep);
      if s[0] != sep && |rest| == 1 {
        assert Split(s, sep) == [[s[0]] + rest[0]];
        assert s == [s[0]] + s[1..];
      } else {
        assert LastPart(s, sep) == LastPart(s[1..], sep);
        var r := LastPart(s, sep);
        assert s[1..][|s| - 1 - |r|..] == s[|s| - |r|..];
      }
      assert sep in s <==> s[0] == sep || sep in s[1..];
    }
  }

  // ----- decimal numbers -----

  predicate IsDigit(c: char) {
    '0' <= c <= '9'
  }

  predicate AllDigits(s: string) {
    forall i :: 0 <= i < |s| ==> IsDigit(s[i])
  }

  function DigitChar(d: nat): (c: char)
    requires d < 10
    ensures IsDigit(c) && DigitValue(c) == d
  {
    (48 + d) as char
  }

  function DigitValue(c: char): nat
    requires IsDigit(c)
  {
    c as int - 48
  }

  /** The value of a numeral read left to right, starting from `acc`. */
  function DigitsValueFrom(acc: nat, s: string): nat
    requires AllDigits(s)
    decreases |s|
  {
    if |s| == 0 then acc else DigitsValueFrom(10 * acc + DigitValue(s[0]), s[1..])
  }

  function DigitsValue(s: string): nat
    requires AllDigits(s)
  {
    DigitsValueFrom(0, s)
  }

  /** Decimal formatting (`Display` for unsigned integers): no sign, no leading zero. */
  function NatToString(n: nat): (s: string)
    ensures |s| >= 1 && AllDigits(s)
    ensures s[0] == '0' ==> n == 0 && |s| == 1
    ensures n < 10 ==> |s| == 1
    ensures n < 100 ==> |s| <= 2
    ensures n < 1000 ==> |s| <= 3
    decreases n
  {
    if n < 10 then [DigitChar(n)] else NatToString(n / 10) + [DigitChar(n % 10)]
  }

  lemma {:induction false} DigitsValueAppend(acc: nat, s: string, c: char)
    requires AllDigits(s) && IsDigit(c)
    ensures AllDigits(s + [c])
    ensures DigitsValueFrom(acc, s + [c]) == 10 * DigitsValueFrom(acc, s) + DigitValue(c)
    decreases |s|
  {
    if |s| > 0 {
      assert (s + [c])[1..] == s[1..] + [c];
      DigitsValueAppend(10 * acc + DigitValue(s[0]), s[1..], c);
    }
  }

  lemma {:induction false} DigitsValueFromGrows(acc: nat, s: string)
    requires AllDigits(s)
    ensures DigitsValueFrom(acc, s) >= acc
    decreases |s|
  {
    if |s| > 0 { DigitsValueFromGrows(10 * acc + DigitValue(s[0]), s[1..]); }
  }

  lemma OverflowPersists(acc: nat, d: string)
    requires |d| > 0 && IsDigit(d[0])
    ensures AllDigits(d) ==> DigitsValueFrom(acc, d) >= 10 * acc + DigitValue(d[0])
  {
    if AllDigits(d) { DigitsValueFromGrows(10 * acc + DigitValue(d[0]), d[1..]); }
  }

  /** Reading back a formatted number gives the number. */
  lemma {:induction false} DigitsValueOfNatToString(n: nat)
    ensures DigitsValue(NatToString(n)) == n
    decreases n
  {
    if n >= 10 {
      var c := DigitChar(n % 10);
      DigitsValueOfNatToString(n / 10);
      DigitsValueAppend(0, NatToString(n / 10), c);
      assert NatToString(n) == NatToString(n / 10) + [c];
      assert DigitValue(c) == n % 10;
      assert DigitsValue(NatToString(n)) == DigitsValueFrom(0, NatToString(n / 10) + [c]);
      assert DigitsValueFrom(0, NatToString(n / 10)) == n / 10;
    } else {
      var c := DigitChar(n);
      assert NatToString(n) == [c];
      assert DigitsValueFrom(0, [c]) == DigitsValueFrom(DigitValue(c), []);
    }
  }

  /** The digit loop of `u8::from_str`, left to right from `acc`: a character that is not a
      digit is an invalid digit, a value above 255 an overflow, whichever comes first. */
  function ParseU8Digits(acc: nat, d: string): (r: Result<nat>)
    requires acc <= 255
    ensures r.Ok? <==> AllDigits(d) && DigitsValueFrom(acc, d) <= 255
    ensures r.Ok? ==> r.value == DigitsValueFrom(acc, d)
    ensures r.Err? ==> r.fault == Error(InvalidDigit) || r.fault == Error(PosOverflow)
    decreases |d|
  {
    if |d| == 0 then Ok(acc)
    else if !IsDigit(d[0]) then Err(Error(InvalidDigit))
    else if 10 * acc + DigitValue(d[0]) > 255 then
      OverflowPersists(acc, d);
      Err(Error(PosOverflow))
    else ParseU8Digits(10 * acc + DigitValue(d[0]), d[1..])
  }

  /** `u8::from_str`: an optional `+`, then one or more decimal digits whose value is at
      most 255. */
  function ParseU8(s: string): (r: Result<nat>)
    ensures r.Ok? ==> r.value <= 255
    ensures r.Err? ==> r.fault.Error?
    ensures r.Ok? <==> (|s| > 0 && s != "+"
      && var d := if s[0] == '+' then s[1..] else s;
         AllDigits(d) && DigitsValue(d) <= 255)
    ensures r.Ok? ==> |s| > 0 && r.value == DigitsValue(if s[0] == '+' then s[1..] else s)
  {
    if |s| == 0 then Err(Error(EmptyInteger))
    else if s == "+" || s == "-" then Err(Error(InvalidDigit))
    else
      var d := if s[0] == '+' then s[1..] else s;
      ParseU8Digits(0, d)
  }

  /** Parsing a formatted byte gives the byte back. */
  lemma ParseU8OfNatToString(n: nat)
    requires n <= 255
    ensures ParseU8(NatToString(n)) == Ok(n)
  {
    DigitsValueOfNatToString(n);
  }
}
