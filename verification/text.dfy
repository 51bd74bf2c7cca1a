/** The string conversions the shell relies on: Python's `str(n)` for an
    integer, `int(text)` in base 10, and `split` / `join` on a one-character
    separator. */
module Text {
  import opened Optional

  predicate IsDigit(c: char) { '0' <= c <= '9' }

  /** The ASCII whitespace Python's `int()` skips around a number:
      space, tab, line feed, vertical tab, form feed, carriage return. */
  predicate IsSpace(c: char) { c == ' ' || '\t' <= c <= '\r' }

  predicate AllDigits(s: string) { forall i :: 0 <= i < |s| ==> IsDigit(s[i]) }

  function DigitChar(d: nat): (c: char)
    requires d < 10
    ensures IsDigit(c)
    ensures c == '0' <==> d == 0
  {
    ('0' as int + d) as char
  }

  function DigitValue(c: char): (d: nat)
    requires IsDigit(c)
    ensures d < 10 && DigitChar(d) == c
  {
    c as int - '0' as int
  }

  // ---------------------------------------------------------------------
  // Printing integers

  /** Decimal text of a natural number, without leading zeros. */
  function ShowNat(n: nat): (s: string)
    ensures |s| > 0 && AllDigits(s)
    ensures s[0] == '0' ==> n == 0
    decreases n
  {
    if n < 10 then [DigitChar(n)] else ShowNat(n / 10) + [DigitChar(n % 10)]
  }

  /** Python's `str(n)` for an integer `n`. */
  function ShowInt(n: int): (s: string)
    ensures |s| > 0 && IsDigit(s[|s| - 1])
    ensures s[0] == '-' <==> n < 0
    ensures forall i :: 0 <= i < |s| ==> IsDigit(s[i]) || (i == 0 && s[i] == '-')
  {
    if n < 0 then "-" + ShowNat(-n) else ShowNat(n)
  }

  // ---------------------------------------------------------------------
  // Parsing integers

  /** The value of a string of decimal digits, most significant first. */
  function DigitsValue(s: string): nat
    requires AllDigits(s)
  {
    if |s| == 0 then 0 else DigitsValue(s[..|s| - 1]) * 10 + DigitValue(s[|s| - 1])
  }

  /** Digits with single underscores between them: the body Python's
      `int()` accepts for a base-10 number after the optional sign. */
  predicate IsDigitGroup(s: string) {
    && |s| > 0
    && IsDigit(s[0])
    && IsDigit(s[|s| - 1])
    && (forall i :: 0 <= i < |s| ==> IsDigit(s[i]) || s[i] == '_')
    && (forall i :: 0 < i < |s| && s[i] == '_' ==> s[i - 1] != '_')
  }

  function DropUnderscores(s: string): (r: string)
    requires forall i :: 0 <= i < |s| ==> IsDigit(s[i]) || s[i] == '_'
    ensures AllDigits(r)
    ensures AllDigits(s) ==> r == s
  {
    if |s| == 0 then []
    else (if s[0] == '_' then [] else [s[0]]) + DropUnderscores(s[1..])
  }

  function TrimStart(s: string): (r: string)
    ensures |r| <= |s| && r == s[|s| - |r|..]
    ensures |r| > 0 ==> !IsSpace(r[0])
  {
    if |s| > 0 && IsSpace(s[0]) then TrimStart(s[1..]) else s
  }

  function TrimEnd(s: string): (r: string)
    ensures |r| <= |s| && r == s[..|r|]
    ensures |r| > 0 ==> !IsSpace(r[|r| - 1])
  {
    if |s| > 0 && IsSpace(s[|s| - 1]) then TrimEnd(s[..|s| - 1]) else s
  }

  /** Python's `text.strip()` restricted to ASCII whitespace. */
  function Trim(s: string): (r: string)
    ensures |r| > 0 ==> !IsSpace(r[0]) && !IsSpace(r[|r| - 1])
    ensures |r| <= |s|
  {
    TrimEnd(TrimStart(s))
  }

  /** Python's `int(text)` in base 10; the `ValueError` it raises on
      anything else is `None`. */
  function ParseInt(text: string): Option<int>
  {
    var t := Trim(text);
    if |t| > 0 && (t[0] == '+' || t[0] == '-') then
      if IsDigitGroup(t[1..]) then
        var v: int := DigitsValue(DropUnderscores(t[1..]));
        Some(if t[0] == '-' then -v else v)
      else None
    else if IsDigitGroup(t) then Some(DigitsValue(DropUnderscores(t)))
    else None
  }

  lemma {:induction false} ShowNatValue(n: nat)
    ensures DigitsValue(ShowNat(n)) == n
    decreases n
  {
    if n >= 10 {
      var s := ShowNat(n);
      assert s[..|s| - 1] == ShowNat(n / 10);
      ShowNatValue(n / 10);
    }
  }

  lemma TrimNoSpace(s: string)
    requires |s| > 0 && !IsSpace(s[0]) && !IsSpace(s[|s| - 1])
    ensures Trim(s) == s
  {
    assert TrimStart(s) == s;
    assert TrimEnd(s) == s;
  }

  /** `int(str(n)) == n` for every integer. */
  lemma ParseShowInt(n: int)
    ensures ParseInt(ShowInt(n)) == Some(n)
  {
    var s := ShowInt(n);
    TrimNoSpace(s);
    var body := if n < 0 then s[1..] else s;
    var m: nat := if n < 0 then -n else n;
    assert body == ShowNat(m);
    assert IsDigitGroup(body);
    assert DropUnderscores(body) == body;
    ShowNatValue(m);
  }

  /** `int()` rejects every text without a decimal digit in it. */
  lemma ParseNeedsDigit(text: string)
    requires ParseInt(text).Some?
    ensures exists k :: 0 <= k < |text| && IsDigit(text[k])
  {
    var u := TrimStart(text);
    var t := TrimEnd(u);
    var k := if t[0] == '+' || t[0] == '-' then 1 else 0;
    assert IsDigit(t[k]);
    assert t[k] == u[k] == text[|text| - |u| + k];
  }

  // ---------------------------------------------------------------------
  // Splitting and joining

  /** Python's `text.split(sep)` for a one-character separator: every
      separator ends one field, so there is always one more field than
      separators, and fields may be empty. */
  function Split(text: string, sep: char): (parts: seq<string>)
    ensures |parts| > 0
    ensures forall i :: 0 <= i < |parts| ==> sep !in parts[i]
  {
    if |text| == 0 then [""]
    else
      var rest := Split(text[1..], sep);
      if text[0] == sep then [""] + rest
      else [[text[0]] + rest[0]] + rest[1..]
  }

  /** Python's `sep.join(parts)`. */
  function Join(parts: seq<string>, sep: char): string
  {
    if |parts| == 0 then ""
    else if |parts| == 1 then parts[0]
    else parts[0] + [sep] + Join(parts[1..], sep)
  }

  /** Growing the first field commutes with appending further fields. */
  lemma GrowFirst(c: char, whole: seq<string>, rest: seq<string>, right: seq<string>)
    requires whole == rest + right && |rest| > 0
    ensures [[c] + whole[0]] + whole[1..] == [[c] + rest[0]] + rest[1..] + right
  {
    assert whole[0] == rest[0] && whole[1..] == rest[1..] + right;
  }

  /** `Split` of a text that starts with a given character. */
  lemma SplitCons(c: char, u: string, sep: char)
    ensures var rest := Split(u, sep);
      Split([c] + u, sep) == if c == sep then [""] + rest else [[c] + rest[0]] + rest[1..]
  {
    assert ([c] + u)[1..] == u;
  }

  /** Putting a field in front commutes with appending further fields. */
  lemma PrependField(f: string, x: seq<string>, y: seq<string>)
    ensures [f] + (x + y) == [f] + x + y
  {
  }

  /** The inductive step of `SplitAround` when the text starts with the
      separator: an empty first field. */
  lemma SplitAroundSep(a: string, sep: char, b: string)
    requires Split(a + [sep] + b, sep) == Split(a, sep) + Split(b, sep)
    ensures Split([sep] + a + [sep] + b, sep) == Split([sep] + a, sep) + Split(b, sep)
  {
    assert [sep] + a + [sep] + b == [sep] + (a + [sep] + b);
    SplitCons(sep, a + [sep] + b, sep);
    SplitCons(sep, a, sep);
    PrependField("", Split(a, sep), Split(b, sep));
  }

  /** The inductive step of `SplitAround` when the text starts with another
      character `c`: it grows the first field. */
  lemma SplitAroundOther(c: char, a: string, sep: char, b: string)
    requires c != sep
    requires Split(a + [sep] + b, sep) == Split(a, sep) + Split(b, sep)
    ensures Split([c] + a + [sep] + b, sep) == Split([c] + a, sep) + Split(b, sep)
  {
    assert [c] + a + [sep] + b == [c] + (a + [sep] + b);
    SplitCons(c, a + [sep] + b, sep);
    SplitCons(c, a, sep);
    GrowFirst(c, Split(a + [sep] + b, sep), Split(a, sep), Split(b, sep));
  }

  /** Splitting at one separator splits the two sides independently. */
  lemma {:induction false} SplitAround(a: string, sep: char, b: string)
    ensures Split(a + [sep] + b, sep) == Split(a, sep) + Split(b, sep)
    decreases |a|
  {
    if |a| == 0 {
      assert a + [sep] + b == [sep] + b && ([sep] + b)[1..] == b;
    } else {
      SplitAround(a[1..], sep, b);
      assert a == [a[0]] + a[1..];
      if a[0] == sep {
        SplitAroundSep(a[1..], sep, b);
      } else {
        SplitAroundOther(a[0], a[1..], sep, b);
      }
    }
  }

  /** A text without the separator is a single field. */
  lemma {:induction false} SplitNoSep(a: string, sep: char)
    requires sep !in a
    ensures Split(a, sep) == [a]
    decreases |a|
  {
    if |a| > 0 {
      SplitNoSep(a[1..], sep);
      assert [a[0]] + a[1..] == a;
    }
  }

  /** Joining the fields of a split gives back the text. */
  lemma {:induction false} JoinSplit(text: string, sep: char)
    ensures Join(Split(text, sep), sep) == text
    decreases |text|
  {
    if |text| > 0 {
      var rest := Split(text[1..], sep);
      JoinSplit(text[1..], sep);
      if text[0] == sep {
        assert ([""] + rest)[1..] == rest;
      } else {
        var parts := [[text[0]] + rest[0]] + rest[1..];
        assert parts[1..] == rest[1..];
        if |rest| > 1 {
          assert Join(rest, sep) == rest[0] + [sep] + Join(rest[1..], sep);
        }
        assert [text[0]] + text[1..] == text;
      }
    }
  }

  /** Splitting a join of separator-free fields gives back the fields. */
  lemma {:induction false} SplitJoin(parts: seq<string>, sep: char)
    requires |parts| > 0
    requires forall i :: 0 <= i < |parts| ==> sep !in parts[i]
    ensures Split(Join(parts, sep), sep) == parts
    decreases |parts|
  {
    SplitNoSep(parts[0], sep);
    if |parts| > 1 {
      SplitJoin(parts[1..], sep);
      SplitAround(parts[0], sep, Join(parts[1..], sep));
      assert [parts[0]] + parts[1..] == parts;
    }
  }
}
