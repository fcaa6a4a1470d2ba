/** Python's text conversions that the key scheme and the typecasts rely on:
    `str(n)` for integers, `int(s)` for decimal text, and `str.split`. */
module Text {

  datatype Option<+T> = None | Some(value: T)

  predicate IsDigit(c: char) { '0' <= c <= '9' }

  predicate IsDigits(s: string) { |s| > 0 && forall i :: 0 <= i < |s| ==> IsDigit(s[i]) }

  predicate ColonFree(s: string) { ':' !in s }

  function DigitChar(d: nat): (c: char)
    requires d < 10
    ensures IsDigit(c) && (c as int) - ('0' as int) == d
  {
    (('0' as int) + d) as char
  }

  /** The decimal digits of a natural number, most significant first, without leading zeros. */
  function NatToString(n: nat): (s: string)
    decreases n
  {
    if n < 10 then [DigitChar(n)] else NatToString(n / 10) + [DigitChar(n % 10)]
  }

  /** Python's `str(n)` for an integer. */
  function IntToString(n: int): string
  {
    if n < 0 then "-" + NatToString(-n) else NatToString(n)
  }

  /** The value of a string of decimal digits (leading zeros allowed). */
  function DigitsValue(s: string): nat
    requires IsDigits(s)
    decreases |s|
  {
    var d := (s[|s| - 1] as int) - ('0' as int);
    if |s| == 1 then d else DigitsValue(s[..|s| - 1]) * 10 + d
  }

  /** The whitespace `str.strip()` and `int()` skip: space, `\t`, `\n`, `\v`, `\f`, `\r`. */
  predicate IsSpace(c: char) { c == ' ' || '\t' <= c <= '\r' }

  predicate AllSpace(w: string) { forall i :: 0 <= i < |w| ==> IsSpace(w[i]) }

  function TrimStart(s: string): (r: string)
    ensures r == [] || !IsSpace(r[0])
    decreases |s|
  {
    if |s| > 0 && IsSpace(s[0]) then TrimStart(s[1..]) else s
  }

  function TrimEnd(s: string): (r: string)
    ensures r == [] || !IsSpace(r[|r| - 1])
    decreases |s|
  {
    if |s| > 0 && IsSpace(s[|s| - 1]) then TrimEnd(s[..|s| - 1]) else s
  }

  /** Python's `int(s)` on text: surrounding whitespace is skipped, and the rest
      must be an optional sign followed by decimal digits; anything else is a
      ValueError, here None. */
  function ParseInt(s: string): Option<int>
  {
    ParseDecimal(TrimEnd(TrimStart(s)))
  }

  /** An optional sign followed by decimal digits, nothing around them. */
  function ParseDecimal(s: string): Option<int>
  {
    if |s| > 0 && (s[0] == '-' || s[0] == '+') then
      if IsDigits(s[1..]) then
        var v: int := DigitsValue(s[1..]);
        Some(if s[0] == '-' then -v else v)
      else None
    else if IsDigits(s) then Some(DigitsValue(s))
    else None
  }

  lemma {:induction false} NatToStringDigits(n: nat)
    ensures IsDigits(NatToString(n)) && DigitsValue(NatToString(n)) == n
    decreases n
  {
    var s := NatToString(n);
    if n >= 10 {
      NatToStringDigits(n / 10);
      var p := NatToString(n / 10);
      assert s == p + [DigitChar(n % 10)];
      assert s[..|s| - 1] == p;
    }
  }

  /** Reading back what `str(n)` wrote gives `n`: the integer typecast round trip. */
  lemma ParseIntToString(n: int)
    ensures ParseInt(IntToString(n)) == Some(n)
    ensures ParseDecimal(IntToString(n)) == Some(n)
  {
    ParseDecimalToString(n);
    var s := IntToString(n);
    IntToStringColonFree(n);
    assert !IsSpace(s[0]) && !IsSpace(s[|s| - 1]) by { IntToStringChars(n); }
  }

  /** `int()` skips whitespace on both sides of the number, as in `int(' 29\n')`. */
  lemma ParseIntPadded(pre: string, s: string, post: string)
    requires AllSpace(pre) && AllSpace(post)
    requires |s| > 0 && !IsSpace(s[0]) && !IsSpace(s[|s| - 1])
    ensures ParseInt(pre + s + post) == ParseDecimal(s)
  {
    TrimStartSpaces(pre, s + post);
    assert pre + s + post == pre + (s + post);
    TrimEndSpaces(s, post);
  }

  lemma {:induction false} TrimStartSpaces(w: string, s: string)
    requires AllSpace(w) && (s == [] || !IsSpace(s[0]))
    ensures TrimStart(w + s) == s
    decreases |w|
  {
    if |w| > 0 {
      assert (w + s)[1..] == w[1..] + s;
      TrimStartSpaces(w[1..], s);
    } else {
      assert w + s == s;
    }
  }

  lemma {:induction false} TrimEndSpaces(s: string, w: string)
    requires AllSpace(w) && (s == [] || !IsSpace(s[|s| - 1]))
    ensures TrimEnd(s + w) == s
    decreases |w|
  {
    if |w| > 0 {
      assert (s + w)[..|s + w| - 1] == s + w[..|w| - 1];
      TrimEndSpaces(s, w[..|w| - 1]);
    } else {
      assert s + w == s;
    }
  }

  /** `str(n)` is a minus sign or digits throughout. */
  lemma IntToStringChars(n: int)
    ensures |IntToString(n)| > 0
    ensures forall i :: 0 <= i < |IntToString(n)| ==> IntToString(n)[i] == '-' || IsDigit(IntToString(n)[i])
  {
    var s := IntToString(n);
    var m: nat := if n < 0 then -n else n;
    NatToStringDigits(m);
    assert n < 0 ==> s == "-" + NatToString(m);
  }

  lemma ParseDecimalToString(n: int)
    ensures ParseDecimal(IntToString(n)) == Some(n)
  {
    if n < 0 {
      NatToStringDigits(-n);
      assert IntToString(n)[1..] == NatToString(-n);
    } else {
      NatToStringDigits(n);
    }
  }

  lemma IntToStringColonFree(n: int)
    ensures ColonFree(IntToString(n))
    ensures |IntToString(n)| > 0 && IntToString(n)[0] != '(' && IntToString(n) != "-inf" && IntToString(n) != "+inf"
  {
    var s := IntToString(n);
    var m: nat := if n < 0 then -n else n;
    NatToStringDigits(m);
    var t := NatToString(m);
    assert n < 0 ==> s == "-" + t;
    assert n >= 0 ==> s == t;
    assert forall i :: 0 <= i < |s| ==> s[i] == '-' || IsDigit(s[i]);
    assert forall i :: 1 <= i < |s| ==> IsDigit(s[i]);
    assert !IsDigit("-inf"[1]);
  }

  /** Python's `s.split(sep)`: the pieces between non-overlapping occurrences of
      `sep`, scanned from the left. */
  function Split(s: string, sep: string): (parts: seq<string>)
    requires |sep| > 0
    ensures |parts| >= 1
    decreases |s|
  {
    if |s| < |sep| then [s]
    else if s[..|sep|] == sep then [""] + Split(s[|sep|..], sep)
    else
      var rest := Split(s[1..], sep);
      [[s[0]] + rest[0]] + rest[1..]
  }

  /** Python's `sep.join(parts)`. */
  function Join(parts: seq<string>, sep: string): string
    requires |parts| >= 1
    decreases |parts|
  {
    if |parts| == 1 then parts[0] else parts[0] + sep + Join(parts[1..], sep)
  }

  /** Splitting loses nothing: joining the pieces with the separator gives the text back. */
  lemma {:induction false} JoinSplit(s: string, sep: string)
    requires |sep| > 0
    ensures Join(Split(s, sep), sep) == s
    decreases |s|
  {
    if |s| < |sep| {
    } else if s[..|sep|] == sep {
      var tail := Split(s[|sep|..], sep);
      assert Split(s, sep) == [""] + tail;
      JoinSplit(s[|sep|..], sep);
      assert ([""] + tail)[1..] == tail;
      assert s == sep + s[|sep|..];
    } else {
      var rest := Split(s[1..], sep);
      assert Split(s, sep) == [[s[0]] + rest[0]] + rest[1..];
      JoinSplit(s[1..], sep);
      JoinCons(s[0], rest, sep);
      assert s == [s[0]] + s[1..];
    }
  }

  /** Prefixing the first piece prefixes the joined text. */
  lemma JoinCons(c: char, rest: seq<string>, sep: string)
    requires |rest| >= 1
    ensures Join([[c] + rest[0]] + rest[1..], sep) == [c] + Join(rest, sep)
  {
    var parts := [[c] + rest[0]] + rest[1..];
    if |rest| > 1 {
      assert parts[1..] == rest[1..];
    }
  }

  /** A text without the separator's first character is one piece. */
  lemma {:induction false} SplitFree(s: string, sep: string)
    requires |sep| > 0 && sep[0] !in s
    ensures Split(s, sep) == [s]
    decreases |s|
  {
    if |s| >= |sep| {
      assert s[..|sep|] != sep by { assert s[..|sep|][0] == s[0]; }
      SplitFree(s[1..], sep);
      assert [s[0]] + s[1..] == s;
    }
  }

  /** A first piece without the separator's first character is split off exactly. */
  lemma {:induction false} SplitAt(a: string, sep: string, b: string)
    requires |sep| > 0 && sep[0] !in a
    ensures Split(a + sep + b, sep) == [a] + Split(b, sep)
    decreases |a|
  {
    var s := a + sep + b;
    if |a| == 0 {
      assert s == sep + b;
      assert s[..|sep|] == sep;
      assert s[|sep|..] == b;
    } else {
      assert s[..|sep|] != sep by { assert s[..|sep|][0] == a[0]; }
      assert s[1..] == a[1..] + sep + b;
      SplitAt(a[1..], sep, b);
      assert [a[0]] + a[1..] == a;
    }
  }

  /** `__` does not occur in the text. */
  predicate NoDoubleUnderscore(s: string)
  {
    forall i :: 0 <= i < |s| - 1 ==> !(s[i] == '_' && s[i + 1] == '_')
  }

  /** A text in which `__` does not occur is one piece when split at `__`. */
  lemma {:induction false} SplitNoDoubleUnderscore(s: string)
    requires NoDoubleUnderscore(s)
    ensures Split(s, "__") == [s]
    decreases |s|
  {
    if |s| >= 2 {
      assert s[..2] != "__" by { assert s[..2][0] == s[0] && s[..2][1] == s[1]; }
      assert NoDoubleUnderscore(s[1..]) by {
        forall i | 0 <= i < |s[1..]| - 1 ensures !(s[1..][i] == '_' && s[1..][i + 1] == '_') {
          assert s[1..][i] == s[i + 1] && s[1..][i + 1] == s[i + 2];
        }
      }
      SplitNoDoubleUnderscore(s[1..]);
      assert [s[0]] + s[1..] == s;
    }
  }

  /** A first piece in which `__` does not occur and which does not end in `_` is
      split off exactly at the `__` that follows it. */
  lemma {:induction false} SplitAtDoubleUnderscore(a: string, b: string)
    requires NoDoubleUnderscore(a) && (a == [] || a[|a| - 1] != '_')
    ensures Split(a + "__" + b, "__") == [a] + Split(b, "__")
    decreases |a|
  {
    var s := a + "__" + b;
    if |a| == 0 {
      assert s == "__" + b;
      assert s[..2] == "__";
      assert s[2..] == b;
    } else {
      assert s[..2] != "__" by {
        assert s[..2][0] == a[0];
        if |a| >= 2 { assert s[..2][1] == a[1]; } else { assert s[..2][1] == '_'; }
      }
      var t := a[1..];
      assert s[1..] == t + "__" + b;
      assert NoDoubleUnderscore(t) by {
        forall i | 0 <= i < |t| - 1 ensures !(t[i] == '_' && t[i + 1] == '_') {
          assert t[i] == a[i + 1] && t[i + 1] == a[i + 2];
        }
      }
      assert t != [] ==> t[|t| - 1] == a[|a| - 1];
      SplitAtDoubleUnderscore(t, b);
      assert [a[0]] + t == a;
    }
  }

  lemma SplitColonFree(s: string)
    requires ColonFree(s)
    ensures Split(s, ":") == [s]
  {
    SplitFree(s, ":");
  }

  /** A colon-free first segment is split off exactly. */
  lemma SplitColon(a: string, b: string)
    requires ColonFree(a)
    ensures Split(a + ":" + b, ":") == [a] + Split(b, ":")
  {
    SplitAt(a, ":", b);
  }

  /** A text splits at `:` into more than one piece exactly when it holds a colon. */
  lemma SplitHasColon(s: string)
    ensures |Split(s, ":")| >= 2 <==> ':' in s
  {
    if ':' in s {
      FirstColon(s);
      var i :| 0 <= i < |s| && s[i] == ':' && ColonFree(s[..i]);
      assert s == s[..i] + ":" + s[i + 1..];
      SplitColon(s[..i], s[i + 1..]);
    } else {
      SplitColonFree(s);
    }
  }

  /** A text with a colon has a first one. */
  lemma {:induction false} FirstColon(s: string)
    requires ':' in s
    ensures exists i :: 0 <= i < |s| && s[i] == ':' && ColonFree(s[..i])
    decreases |s|
  {
    if s[0] == ':' {
      assert s[..0] == "";
    } else {
      FirstColon(s[1..]);
      var i :| 0 <= i < |s[1..]| && s[1..][i] == ':' && ColonFree(s[1..][..i]);
      assert s[..i + 1] == [s[0]] + s[1..][..i];
      assert s[i + 1] == ':' && ColonFree(s[..i + 1]);
    }
  }

  /** Cutting at the first colon: two colon-joined texts with colon-free heads agree
      only when heads and tails agree. */
  lemma CutAtColon(a: string, b: string, c: string, d: string)
    requires ColonFree(a) && ColonFree(c)
    requires a + ":" + b == c + ":" + d
    ensures a == c && b == d
  {
    var s := a + ":" + b;
    assert s[|a|] == ':';
    assert (c + ":" + d)[|c|] == ':';
    assert |a| == |c|;
    assert a == s[..|a|];
    assert c == (c + ":" + d)[..|c|];
    assert b == s[|a| + 1..];
    assert d == (c + ":" + d)[|c| + 1..];
  }

  /** The number of colons in a text. */
  function Colons(s: string): nat { multiset(s)[':'] }
}
