/** The JavaScript string operations the utilities rely on: `Array.prototype.join`,
    `String.prototype.split` with a one-character separator, `String.prototype.trim`
    and the decimal rendering of a non-negative integer. */
module JsText {

  import opened Wrappers

  // ---------------------------------------------------------------------------
  // join / split
  // ---------------------------------------------------------------------------

  /** `parts.join(sep)`: the empty list joins to the empty string. */
  function Join(parts: seq<string>, sep: string): string
    decreases |parts|
  {
    if |parts| == 0 then ""
    else if |parts| == 1 then parts[0]
    else parts[0] + sep + Join(parts[1..], sep)
  }

  /** Number of occurrences of `c` in `s`. */
  function Count(s: string, c: char): nat
  {
    if s == [] then 0 else (if s[0] == c then 1 else 0) + Count(s[1..], c)
  }

  /** `s.split(sep)` for a one-character separator: the pieces between the
      separators, so `"".split(":")` is `[""]` and `":".split(":")` is `["", ""]`. */
  function Split(s: string, sep: char): (parts: seq<string>)
    ensures |parts| >= 1
  {
    if s == [] then [""]
    else
      var rest := Split(s[1..], sep);
      if s[0] == sep then [""] + rest
      else [[s[0]] + rest[0]] + rest[1..]
  }

  /** Splitting yields one more piece than there are separators, and no piece
      holds the separator. */
  lemma {:induction false} SplitShape(s: string, sep: char)
    ensures |Split(s, sep)| == Count(s, sep) + 1
    ensures forall i :: 0 <= i < |Split(s, sep)| ==> sep !in Split(s, sep)[i]
  {
    if s != [] {
      SplitShape(s[1..], sep);
      var rest := Split(s[1..], sep);
      if s[0] != sep {
        assert sep !in rest[0];
        assert sep !in [s[0]] + rest[0];
      }
    }
  }

  /** Joining the pieces with the separator gives back the string. */
  lemma {:induction false} JoinSplit(s: string, sep: char)
    ensures Join(Split(s, sep), [sep]) == s
  {
    if s != [] {
      JoinSplit(s[1..], sep);
      var rest := Split(s[1..], sep);
      if s[0] != sep && |rest| > 1 {
        assert rest == [rest[0]] + rest[1..];
        assert [s[0]] + Join(rest, [sep]) == [s[0]] + (rest[0] + [sep] + Join(rest[1..], [sep]));
      }
    }
  }

  /** Splitting a join recovers the pieces when no piece holds the separator. */
  lemma {:induction false} SplitJoin(parts: seq<string>, sep: char)
    requires |parts| >= 1
    requires forall i :: 0 <= i < |parts| ==> sep !in parts[i]
    ensures Split(Join(parts, [sep]), sep) == parts
  {
    if |parts| == 1 {
      SplitNoSeparator(parts[0], sep);
    } else {
      var tail := Join(parts[1..], [sep]);
      SplitJoin(parts[1..], sep);
      SplitPrefix(parts[0], [sep] + tail, sep);
      assert Join(parts, [sep]) == parts[0] + ([sep] + tail);
      var rest := Split([sep] + tail, sep);
      assert rest == [""] + parts[1..] by {
        assert ([sep] + tail)[1..] == tail;
      }
      assert rest[0] == "" && rest[1..] == parts[1..];
      assert parts[0] + "" == parts[0];
      assert [parts[0]] + parts[1..] == parts;
    }
  }

  /** A string without the separator splits into itself. */
  lemma {:induction false} SplitNoSeparator(s: string, sep: char)
    requires sep !in s
    ensures Split(s, sep) == [s]
  {
    if s != [] {
      SplitNoSeparator(s[1..], sep);
      assert [s[0]] + s[1..] == s;
    }
  }

  /** A separator-free prefix glues onto the first piece of what follows. */
  lemma {:induction false} SplitPrefix(a: string, b: string, sep: char)
    requires sep !in a
    ensures Split(a + b, sep) == [a + Split(b, sep)[0]] + Split(b, sep)[1..]
  {
    var sb := Split(b, sep);
    if a != [] {
      var s := a + b;
      assert s[0] == a[0] && s[1..] == a[1..] + b;
      SplitPrefix(a[1..], b, sep);
      var rest := Split(s[1..], sep);
      assert rest[0] == a[1..] + sb[0] && rest[1..] == sb[1..];
      assert Split(s, sep) == [[a[0]] + rest[0]] + rest[1..];
      assert [a[0]] + (a[1..] + sb[0]) == a + sb[0];
    } else {
      assert a + b == b;
      assert a + sb[0] == sb[0];
      assert [sb[0]] + sb[1..] == sb;
    }
  }

  /** The first and last characters of `a + b + c` for non-empty `a` and `c`. */
  lemma OuterEnds(a: string, b: string, c: string)
    requires a != [] && c != []
    ensures var s := a + b + c; s != [] && s[0] == a[0] && s[|s| - 1] == c[|c| - 1]
  {
  }

  // ---------------------------------------------------------------------------
  // trim
  // ---------------------------------------------------------------------------

  /** The characters ECMAScript counts as line terminators. */
  predicate IsLineTerminator(c: char)
  {
    c == '\n' || c == '\r' || c == '\U{2028}' || c == '\U{2029}'
  }

  /** The characters `String.prototype.trim` removes: ECMAScript white space
      (tab, vertical tab, form feed, the space separators of category Zs and the
      byte order mark) and the line terminators. */
  predicate IsJsWhitespace(c: char)
  {
    c == '\t' || c == '\U{B}' || c == '\U{C}' || c == ' ' || c == '\U{A0}' || c == '\U{FEFF}'
    || c == '\U{1680}' || ('\U{2000}' <= c <= '\U{200A}') || c == '\U{202F}' || c == '\U{205F}'
    || c == '\U{3000}' || IsLineTerminator(c)
  }

  /** `s.trimStart()`. */
  function TrimStart(s: string): string
  {
    if s != [] && IsJsWhitespace(s[0]) then TrimStart(s[1..]) else s
  }

  /** `s.trimEnd()`. */
  function TrimEnd(s: string): string
  {
    if s != [] && IsJsWhitespace(s[|s| - 1]) then TrimEnd(s[..|s| - 1]) else s
  }

  /** `s.trim()`. */
  function Trim(s: string): string
  {
    TrimEnd(TrimStart(s))
  }

  /** `trimStart` drops the white space at the front and nothing else: the
      result is a suffix, everything before it is white space, and it does not
      start with white space. */
  lemma {:induction false} TrimStartSpec(s: string)
    ensures var r := TrimStart(s);
      |r| <= |s| && r == s[|s| - |r|..]
      && (forall i :: 0 <= i < |s| - |r| ==> IsJsWhitespace(s[i]))
      && (r == [] || !IsJsWhitespace(r[0]))
  {
    if s != [] && IsJsWhitespace(s[0]) {
      var t := s[1..];
      TrimStartSpec(t);
      var r := TrimStart(t);
      assert TrimStart(s) == r;
      assert t[|t| - |r|..] == s[|s| - |r|..];
      forall i | 0 <= i < |s| - |r|
        ensures IsJsWhitespace(s[i])
      {
        if i > 0 {
          assert s[i] == t[i - 1];
        }
      }
    }
  }

  /** `trimEnd` drops the white space at the back and nothing else. */
  lemma {:induction false} TrimEndSpec(s: string)
    ensures var r := TrimEnd(s);
      |r| <= |s| && r == s[..|r|]
      && (forall i :: |r| <= i < |s| ==> IsJsWhitespace(s[i]))
      && (r == [] || !IsJsWhitespace(r[|r| - 1]))
  {
    if s != [] && IsJsWhitespace(s[|s| - 1]) {
      TrimEndSpec(s[..|s| - 1]);
    }
  }

  /** Trimming cuts white space off both ends and nothing else: the result is
      the slice of the input that starts where `trimStart` stops, only white
      space lies around it, and it neither starts nor ends with white space. */
  lemma TrimIsSlice(s: string)
    ensures |Trim(s)| <= |TrimStart(s)| <= |s|
    ensures Trim(s) == s[|s| - |TrimStart(s)|..|s| - |TrimStart(s)| + |Trim(s)|]
    ensures forall k :: 0 <= k < |s| - |TrimStart(s)| ==> IsJsWhitespace(s[k])
    ensures forall k :: |s| - |TrimStart(s)| + |Trim(s)| <= k < |s| ==> IsJsWhitespace(s[k])
    ensures Trim(s) == [] || (!IsJsWhitespace(Trim(s)[0]) && !IsJsWhitespace(Trim(s)[|Trim(s)| - 1]))
  {
    var t := TrimStart(s);
    var r := TrimEnd(t);
    var i := |s| - |t|;
    TrimStartSpec(s);
    TrimEndSpec(t);
    assert r == s[i..i + |r|];
    forall k | i + |r| <= k < |s| ensures IsJsWhitespace(s[k]) {
      assert s[k] == t[k - i];
    }
    assert r == [] || r[0] == t[0];
  }

  // ---------------------------------------------------------------------------
  // decimal numerals
  // ---------------------------------------------------------------------------

  predicate IsDigit(c: char)
  {
    '0' <= c <= '9'
  }

  function DigitChar(d: nat): char
    requires d < 10
  {
    ('0' as int + d) as char
  }

  function DigitValue(c: char): (d: nat)
    requires IsDigit(c)
    ensures d < 10
  {
    (c as int - '0' as int) as nat
  }

  /** The decimal numeral of `n`, as `String(n)` writes it. */
  function NatToText(n: nat): (r: string)
    ensures |r| >= 1 && forall i :: 0 <= i < |r| ==> IsDigit(r[i])
  {
    if n < 10 then [DigitChar(n)] else NatToText(n / 10) + [DigitChar(n % 10)]
  }

  /** The decimal numeral of an integer, with a leading `-` when negative. */
  function IntToText(n: int): string
  {
    if n < 0 then "-" + NatToText(-n) else NatToText(n)
  }

  /** The value of a non-empty string of digits. */
  function DigitsValue(s: string): nat
    requires forall i :: 0 <= i < |s| ==> IsDigit(s[i])
  {
    if s == [] then 0 else DigitsValue(s[..|s| - 1]) * 10 + DigitValue(s[|s| - 1])
  }

  /** A canonical array index key: digits only, and no leading zero unless the
      key is "0" itself. */
  predicate IsCanonicalIndex(key: string)
  {
    |key| >= 1 && (forall i :: 0 <= i < |key| ==> IsDigit(key[i])) && (|key| == 1 || key[0] != '0')
  }

  /** The index a property key names on an array or a string, if any. */
  function ParseIndex(key: string): Option<nat>
  {
    if IsCanonicalIndex(key) then Some(DigitsValue(key)) else None
  }

  lemma DigitRoundTrip(d: nat)
    requires d < 10
    ensures IsDigit(DigitChar(d)) && DigitValue(DigitChar(d)) == d
  {
  }

  /** The numeral of `n` is a canonical index key naming `n`. */
  lemma {:induction false} ParseNatToText(n: nat)
    ensures ParseIndex(NatToText(n)) == Some(n)
  {
    DigitRoundTrip(n % 10);
    var r := NatToText(n);
    if n < 10 {
      assert n % 10 == n;
      assert r == [DigitChar(n)];
      assert r[..0] == [];
      assert DigitsValue(r) == DigitValue(r[0]);
      assert IsCanonicalIndex(r);
    } else {
      ParseNatToText(n / 10);
      var t := NatToText(n / 10);
      assert r[..|r| - 1] == t;
      assert r[0] == t[0];
      assert t[0] != '0' by {
        if |t| == 1 {
          assert t[..0] == [];
          assert DigitsValue(t) == DigitValue(t[0]);
        }
      }
      assert DigitsValue(r) == (n / 10) * 10 + n % 10;
    }
  }

  /** Every canonical index key is the numeral of the index it names: a key
      names an array element exactly when it is that element's numeral. */
  lemma {:induction false} NatToTextParse(key: string)
    requires ParseIndex(key).Some?
    ensures NatToText(ParseIndex(key).value) == key
  {
    var n := DigitsValue(key);
    var last := key[|key| - 1];
    DigitRoundTrip(DigitValue(last));
    if |key| == 1 {
      assert key[..0] == [];
      assert DigitsValue(key[..0]) == 0;
      assert n == DigitValue(last);
      assert [last] == key;
    } else {
      var front := key[..|key| - 1];
      assert front[0] == key[0];
      assert IsCanonicalIndex(front);
      NatToTextParse(front);
      var m := DigitsValue(front);
      assert n / 10 == m && n % 10 == DigitValue(last);
      assert key == front + [last];
    }
  }
}
