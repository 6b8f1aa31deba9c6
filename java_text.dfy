/**
 * The few pieces of the Java library the record system leans on, written out:
 * Integer.parseInt, Integer.toString and String.split with a literal separator
 * that contains no regular-expression metacharacter.
 */
module JavaText {
  import opened Wrappers

  /** Bounds of a Java int. */
  const MinInt: int := -0x8000_0000
  const MaxInt: int := 0x7fff_ffff

  predicate IsDigit(ch: char) {
    '0' <= ch <= '9'
  }

  predicate AllDigits(s: string) {
    forall i :: 0 <= i < |s| ==> IsDigit(s[i])
  }

  function DigitValue(ch: char): (d: nat)
    requires IsDigit(ch)
    ensures d < 10
  {
    ch as int - '0' as int
  }

  function DigitChar(d: nat): (ch: char)
    requires d < 10
    ensures IsDigit(ch) && DigitValue(ch) == d
  {
    ('0' as int + d) as char
  }

  /** The value of a run of decimal digits, most significant digit first. */
  function DigitsValue(s: string): nat
    requires AllDigits(s)
  {
    if s == [] then 0 else 10 * DigitsValue(s[..|s| - 1]) + DigitValue(s[|s| - 1])
  }

  /**
   * Integer.parseInt(s): an optional '-' or '+', then one or more ASCII digits
   * (leading zeros allowed), and the value must fit in an int. None stands for
   * the NumberFormatException.
   */
  function ParseInt(s: string): (r: Option<int>)
    ensures r.Some? ==> MinInt <= r.value <= MaxInt
    ensures r.Some? ==> s != [] && (IsDigit(s[0]) || s[0] == '-' || s[0] == '+')
  {
    if s == [] then None
    else
      var digits := if s[0] == '-' || s[0] == '+' then s[1..] else s;
      if digits == [] || !AllDigits(digits) then None
      else
        var v: int := if s[0] == '-' then 0 - DigitsValue(digits) as int else DigitsValue(digits);
        if MinInt <= v <= MaxInt then Some(v) else None
  }

  /** Decimal rendering of a natural number, without leading zeros. */
  function NatToString(n: nat): (s: string)
    ensures |s| > 0
  {
    if n < 10 then [DigitChar(n)] else NatToString(n / 10) + [DigitChar(n % 10)]
  }

  /** The rendering is a string of digits worth n, with a leading zero only for 0 itself. */
  lemma {:induction false} NatToStringDigits(n: nat)
    ensures var s := NatToString(n);
      AllDigits(s) && DigitsValue(s) == n && (s[0] == '0' ==> s == "0")
  {
    if n >= 10 {
      NatToStringDigits(n / 10);
      var prefix := NatToString(n / 10);
      var s := NatToString(n);
      assert s[..|s| - 1] == prefix;
    }
  }

  /** Integer.toString(n): a '-' for negative numbers, then the digits of |n|. */
  function IntToString(n: int): (s: string)
    ensures |s| > 0
  {
    if n < 0 then "-" + NatToString(-n) else NatToString(n)
  }

  /** The rendering starts with '-' exactly for negative n, and the rest are the digits of |n|. */
  lemma IntToStringDigits(n: int)
    ensures var s := IntToString(n);
      && (s[0] == '-' <==> n < 0)
      && (n < 0 ==> AllDigits(s[1..]) && DigitsValue(s[1..]) == -n && s[1..] == NatToString(-n))
      && (0 <= n ==> AllDigits(s) && DigitsValue(s) == n && s == NatToString(n))
  {
    if n < 0 {
      NatToStringDigits(-n);
      assert IntToString(n)[1..] == NatToString(-n);
    } else {
      NatToStringDigits(n);
    }
  }

  /** A rendered int holds no space. */
  lemma IntToStringNoSpace(n: int)
    ensures ' ' !in IntToString(n)
  {
    var t := IntToString(n);
    IntToStringDigits(n);
    forall i | 0 <= i < |t| ensures t[i] != ' ' {
      if n < 0 && i > 0 {
        assert t[i] == t[1..][i - 1];
      }
    }
  }

  /** Integer.parseInt undoes Integer.toString on every int. */
  lemma ParseIntToString(n: int)
    requires MinInt <= n <= MaxInt
    ensures ParseInt(IntToString(n)) == Some(n)
  {
    IntToStringDigits(n);
  }

  /**
   * The pieces of s between the left-to-right, non-overlapping occurrences of
   * sep, empty pieces included (what java.util.regex produces before
   * String.split drops the trailing empty ones).
   */
  function Fields(s: string, sep: string): (r: seq<string>)
    requires sep != []
    ensures r != []
  {
    FieldsFrom(s, sep, "")
  }

  /** The fields of s when the field being read already holds `current`. */
  function FieldsFrom(s: string, sep: string, current: string): (r: seq<string>)
    requires sep != []
    ensures r != []
    decreases |s|
  {
    if |s| < |sep| then [current + s]
    else if s[..|sep|] == sep then [current] + FieldsFrom(s[|sep|..], sep, "")
    else FieldsFrom(s[1..], sep, current + [s[0]])
  }

  function DropTrailingEmpty(pieces: seq<string>): (r: seq<string>)
    ensures |r| <= |pieces| && r == pieces[..|r|]
    ensures r != [] ==> r[|r| - 1] != ""
    ensures forall i :: |r| <= i < |pieces| ==> pieces[i] == ""
  {
    if pieces == [] then []
    else if pieces[|pieces| - 1] == "" then DropTrailingEmpty(pieces[..|pieces| - 1])
    else pieces
  }

  /**
   * s.split(sep) for a separator with no regular-expression metacharacter:
   * a string with no occurrence of sep comes back whole (even when it is
   * empty); otherwise the trailing empty pieces are dropped.
   */
  function Split(s: string, sep: string): seq<string>
    requires sep != []
  {
    var pieces := Fields(s, sep);
    if |pieces| == 1 then pieces else DropTrailingEmpty(pieces)
  }

  /** A string holding no first character of the separator is a single field. */
  lemma {:induction false} FieldsWithoutSeparator(s: string, sep: string, current: string)
    requires sep != [] && sep[0] !in s
    ensures FieldsFrom(s, sep, current) == [current + s]
    decreases |s|
  {
    if |s| >= |sep| {
      assert s[..|sep|] != sep by { assert s[0] != sep[0]; }
      FieldsWithoutSeparator(s[1..], sep, current + [s[0]]);
      assert current + [s[0]] + s[1..] == current + s;
    }
  }

  /** No field produced by a one-character separator contains that character. */
  lemma {:induction false} FieldsExcludeSeparator(s: string, ch: char, current: string)
    requires ch !in current
    ensures forall f :: f in FieldsFrom(s, [ch], current) ==> ch !in f
    decreases |s|
  {
    if |s| < 1 {
      assert current + s == current;
    } else if s[..1] == [ch] {
      FieldsExcludeSeparator(s[1..], ch, "");
    } else {
      assert s[0] != ch;
      FieldsExcludeSeparator(s[1..], ch, current + [s[0]]);
    }
  }

  /** Every piece of a split on one character is free of that character. */
  lemma SplitExcludesSeparator(s: string, ch: char)
    ensures forall f :: f in Split(s, [ch]) ==> ch !in f
  {
    FieldsExcludeSeparator(s, ch, "");
    var pieces := Fields(s, [ch]);
    if |pieces| != 1 {
      var r := DropTrailingEmpty(pieces);
      forall f | f in r ensures ch !in f {
        var i :| 0 <= i < |r| && r[i] == f;
        assert f == pieces[i];
      }
    }
  }

  /** Cutting at the first separator: the head piece, then the fields of the tail. */
  lemma {:induction false} FieldsAtFirstSeparator(d: string, t: string, sep: string, current: string)
    requires sep != [] && sep[0] !in d
    ensures FieldsFrom(d + sep + t, sep, current) == [current + d] + FieldsFrom(t, sep, "")
    decreases |d|
  {
    var s := d + sep + t;
    if d == [] {
      assert s[..|sep|] == sep && s[|sep|..] == t;
      assert current + d == current;
    } else {
      assert s[..|sep|] != sep by { assert s[0] == d[0] != sep[0]; }
      assert s[1..] == d[1..] + sep + t;
      FieldsAtFirstSeparator(d[1..], t, sep, current + [d[0]]);
      assert current + [d[0]] + d[1..] == current + d;
    }
  }

  /** The words ws, with sep between consecutive ones (String.join). */
  function Join(ws: seq<string>, sep: string): string
    requires ws != []
  {
    if |ws| == 1 then ws[0] else ws[0] + sep + Join(ws[1..], sep)
  }

  /** Words holding no first character of the separator are the fields of their join. */
  lemma {:induction false} FieldsOfJoin(ws: seq<string>, sep: string)
    requires sep != [] && ws != []
    requires forall i :: 0 <= i < |ws| ==> sep[0] !in ws[i]
    ensures Fields(Join(ws, sep), sep) == ws
    decreases |ws|
  {
    if |ws| == 1 {
      FieldsWithoutSeparator(ws[0], sep, "");
      assert "" + ws[0] == ws[0];
    } else {
      var tail := ws[1..];
      assert forall i :: 0 <= i < |tail| ==> sep[0] !in tail[i] by {
        forall i | 0 <= i < |tail| ensures sep[0] !in tail[i] { assert tail[i] == ws[i + 1]; }
      }
      FieldsAtFirstSeparator(ws[0], Join(tail, sep), sep, "");
      FieldsOfJoin(tail, sep);
      assert "" + ws[0] == ws[0];
      assert ws == [ws[0]] + tail;
    }
  }

  /**
   * split undoes join: words holding no first character of the separator,
   * the last of them non-empty, come back from splitting their join.
   */
  lemma SplitJoin(ws: seq<string>, sep: string)
    requires sep != [] && ws != [] && ws[|ws| - 1] != []
    requires forall i :: 0 <= i < |ws| ==> sep[0] !in ws[i]
    ensures Split(Join(ws, sep), sep) == ws
  {
    FieldsOfJoin(ws, sep);
  }
}
