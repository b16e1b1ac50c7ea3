/** The fixed-width field the terminal and CSV reports print every value in: the value
    in double quotes, right-aligned.

    The width test counts UTF-8 bytes (Rust's `String::len`) while the padding that
    `{:>width$}` adds counts characters; both counts are modelled, so a value outside
    ASCII comes out exactly as narrow as the source makes it. */
module Terminal {
  import opened Results
  import opened Text

  /** The number of bytes UTF-8 spends on `c`. */
  function Utf8Width(c: char): (n: nat)
    ensures 1 <= n <= 4
    ensures n == 1 <==> (c as int) < 0x80
  {
    if (c as int) < 0x80 then 1
    else if (c as int) < 0x800 then 2
    else if (c as int) < 0x1_0000 then 3
    else 4
  }

  /** `String::len`: the length of `s` in UTF-8 bytes, never less than its length in
      characters. */
  function Utf8Len(s: string): (n: nat)
    ensures n >= |s|
  {
    if |s| == 0 then 0 else Utf8Width(s[0]) + Utf8Len(s[1..])
  }

  predicate IsAscii(s: string) {
    forall k :: 0 <= k < |s| ==> (s[k] as int) < 0x80
  }

  /** An ASCII string takes one byte per character. */
  lemma {:induction false} Utf8LenAscii(s: string)
    requires IsAscii(s)
    ensures Utf8Len(s) == |s|
  {
    if |s| > 0 {
      assert (s[0] as int) < 0x80;
      Utf8LenAscii(s[1..]);
    }
  }

  function Spaces(n: nat): (r: string)
    ensures |r| == n && forall k :: 0 <= k < n ==> r[k] == ' '
  {
    if n == 0 then "" else [' '] + Spaces(n - 1)
  }

  /** The value in double quotes. */
  function Quoted(value: string): (q: string)
    ensures |q| == |value| + 2 && q[0] == '"' && q[|q| - 1] == '"' && q[1..|q| - 1] == value
  {
    "\"" + value + "\""
  }

  /** `format_field` (and its legacy twin `f`): the quoted value as it is when it takes
      at least `width` bytes, otherwise padded on the left with spaces to `width`
      characters. */
  function FormatField(value: string, width: nat): (r: string) {
    var q := Quoted(value);
    if Utf8Len(q) >= width then q else Spaces(width - |q|) + q
  }

  /** The field is the quoted value after some spaces; padding is added only to a value
      narrower than `width` bytes and then brings the field to exactly `width`
      characters. The field always takes at least `width` bytes. */
  lemma FormatFieldLayout(value: string, width: nat)
    ensures var r := FormatField(value, width); var q := Quoted(value);
      |r| >= |q| && r[|r| - |q|..] == q
      && (forall k :: 0 <= k < |r| - |q| ==> r[k] == ' ')
      && (|r| > |q| <==> Utf8Len(q) < width)
      && (|r| > |q| ==> |r| == width)
      && Utf8Len(r) >= width
  {
    var r := FormatField(value, width);
    var q := Quoted(value);
    if Utf8Len(q) < width {
      var pad := Spaces(width - |q|);
      assert r == pad + q;
      Utf8LenConcat(pad, q);
      Utf8LenAscii(pad);
    }
  }

  lemma {:induction false} Utf8LenConcat(a: string, b: string)
    ensures Utf8Len(a + b) == Utf8Len(a) + Utf8Len(b)
  {
    if |a| > 0 {
      assert (a + b)[1..] == a[1..] + b;
      Utf8LenConcat(a[1..], b);
    } else {
      assert a + b == b;
    }
  }

  /** For ASCII values the field is exactly `max(width, |value| + 2)` characters wide. */
  lemma FormatFieldAsciiWidth(value: string, width: nat)
    requires IsAscii(value)
    ensures |FormatField(value, width)| == if |value| + 2 >= width then |value| + 2 else width
  {
    var q := Quoted(value);
    assert IsAscii(q) by {
      forall k | 0 <= k < |q|
        ensures (q[k] as int) < 0x80
      {
        if 0 < k < |q| - 1 {
          assert q[k] == value[k - 1];
        }
      }
    }
    Utf8LenAscii(q);
  }

  /** Reading a field back: the leading spaces dropped, then the surrounding quotes. */
  function ReadField(field: string): (r: Option<string>) {
    var t := DropSpaces(field);
    if |t| >= 2 && t[0] == '"' && t[|t| - 1] == '"' then Some(t[1..|t| - 1]) else None
  }

  function DropSpaces(s: string): (r: string)
    ensures |r| <= |s| && r == s[|s| - |r|..]
    ensures |r| > 0 ==> r[0] != ' '
  {
    if |s| > 0 && s[0] == ' ' then DropSpaces(s[1..]) else s
  }

  /** Every value can be read back from its field, whatever the width. */
  lemma FormatFieldRoundTrip(value: string, width: nat)
    ensures ReadField(FormatField(value, width)) == Some(value)
  {
    var q := Quoted(value);
    if Utf8Len(q) < width {
      DropPadding(width - |q|, q);
    }
  }

  lemma {:induction false} DropPadding(n: nat, q: string)
    requires |q| > 0 && q[0] != ' '
    ensures DropSpaces(Spaces(n) + q) == q
  {
    if n > 0 {
      assert (Spaces(n) + q)[1..] == Spaces(n - 1) + q;
      DropPadding(n - 1, q);
    } else {
      assert Spaces(n) + q == q;
    }
  }

  /** A character that is neither a space nor a double quote is in the field only when
      it is in the value. */
  lemma FormatFieldAvoids(value: string, width: nat, c: char)
    requires c != ' ' && c != '"' && c !in value
    ensures c !in FormatField(value, width)
  {
    var r := FormatField(value, width);
    var q := Quoted(value);
    FormatFieldLayout(value, width);
    forall k | 0 <= k < |r|
      ensures r[k] != c
    {
      if k >= |r| - |q| {
        assert r[k] == q[k - (|r| - |q|)];
        if 0 < k - (|r| - |q|) < |q| - 1 {
          assert q[k - (|r| - |q|)] == value[k - (|r| - |q|) - 1];
        }
      }
    }
  }

  /** The fields the source's own unit tests check: a short value is padded... */
  lemma FormatFieldShortExample()
    ensures FormatField("test", 10) == "    \"test\""
  {
  }

  /** ... a value exactly as wide as the field is not ... */
  lemma FormatFieldExactExample()
    ensures FormatField("test", 6) == "\"test\""
  {
  }

  /** ... nor is a longer one ... */
  lemma FormatFieldLongExample()
    ensures FormatField("long_value", 5) == "\"long_value\""
  {
    FormatFieldWide("long_value", 5);
    var q := "\"" + "long_value" + "\"";
    var e := "\"long_value\"";
    assert |q| == |e| == 12;
    forall k | 0 <= k < 12
      ensures q[k] == e[k]
    {
    }
  }

  /** A value that takes at least `width` characters once quoted is not padded. */
  lemma FormatFieldWide(value: string, width: nat)
    requires |value| + 2 >= width
    ensures FormatField(value, width) == "\"" + value + "\""
  {
  }

  /** ... and a number is formatted through its decimal text. */
  lemma FormatFieldNumberExample()
    ensures FormatField(NatToString(42), 6) == "  \"42\""
  {
    assert NatToString(42) == "42" by {
      assert NatToString(4) == "4";
    }
    var q := Quoted("42");
    assert q == "\"42\"";
    assert Utf8Len(q) == 4;
    assert Spaces(2) == "  ";
  }

  /** Outside ASCII the width test counts bytes: `"é"` takes four bytes, so a field of
      width 4 gets no padding and is only three characters wide. */
  lemma FormatFieldCountsBytes()
    ensures FormatField("é", 4) == "\"é\"" && |FormatField("é", 4)| == 3
  {
  }
}
