/** The small deterministic helpers of `src/utils/Utils.ts`: true modulo and
    `wrapAround`, file-name sanitising, the letters-and-underscores check,
    first-letter capitalisation and `unCamelCase`. */
module Helpers {

  import opened Wrappers
  import JsText

  // ---------------------------------------------------------------------------
  // mod / wrapAround
  // ---------------------------------------------------------------------------

  function Abs(x: int): nat
  {
    if x < 0 then -x else x
  }

  /** JavaScript's `%` on integers: the remainder of truncating division,
      which takes the sign of the dividend. */
  function JsRem(a: int, b: int): int
    requires b != 0
  {
    if a >= 0 then a % Abs(b) else -((-a) % Abs(b))
  }

  /** `a % b` is `a` minus a multiple of `b`, and smaller than `b` in size. */
  lemma JsRemSpec(a: int, b: int)
    requires b != 0
    ensures a - JsRem(a, b) == Abs(b) * (if a >= 0 then a / Abs(b) else -((-a) / Abs(b)))
    ensures a >= 0 ==> 0 <= JsRem(a, b) < Abs(b)
    ensures a < 0 ==> 0 < JsRem(a, b) + Abs(b) && JsRem(a, b) <= 0
  {
  }

  /** `mod(n, m)`: `((n % m) + m) % m` with JavaScript's `%`. */
  function Mod(n: int, m: int): int
    requires m != 0
  {
    JsRem(JsRem(n, m) + m, m)
  }

  /** A value in `[0, m)` that differs from `n` by a multiple of `m` is the
      mathematical remainder of `n` by `m`. */
  lemma ModUnique(n: int, m: int, k: int, r: int)
    requires m > 0 && 0 <= r < m && n == m * k + r
    ensures n % m == r
  {
    var d := k - n / m;
    assert m * d == n % m - r;
    MultipleBelow(m, d);
  }

  /** The only multiple of a positive `m` strictly between `-m` and `m` is 0. */
  lemma MultipleBelow(m: int, d: int)
    requires m > 0 && -m < m * d < m
    ensures d == 0
  {
    if d > 0 {
      MultipleAtLeast(m, d);
    } else if d < 0 {
      assert m * (-d) == -(m * d);
      MultipleAtLeast(m, -d);
    }
  }

  lemma {:induction false} MultipleAtLeast(m: nat, d: nat)
    requires d >= 1
    ensures m * d >= m
  {
    if d > 1 {
      assert m * d == m * (d - 1) + m;
      MultipleAtLeast(m, d - 1);
    }
  }

  /** `mod` is true modulo: for a positive modulus its result lies in
      `[0, m)` and is the mathematical remainder; for a negative one it lies in
      `(m, 0]`; either way it differs from `n` by a multiple of `m`. */
  lemma ModSpec(n: int, m: int)
    requires m != 0
    ensures m > 0 ==> 0 <= Mod(n, m) < m && Mod(n, m) == n % m
    ensures m < 0 ==> m < Mod(n, m) <= 0
    ensures (n - Mod(n, m)) % Abs(m) == 0
  {
    var b := Abs(m);
    var t := JsRem(n, m);
    JsRemSpec(n, m);
    var q1 := if n >= 0 then n / b else -((-n) / b);
    assert n == t + b * q1;
    var u := t + m;
    JsRemSpec(u, m);
    var q2 := if u >= 0 then u / b else -((-u) / b);
    var r := Mod(n, m);
    assert u == r + b * q2;
    if m > 0 {
      assert n == b * (q1 + q2 - 1) + r;
      ModUnique(n, b, q1 + q2 - 1, r);
      ModUnique(n - r, b, q1 + q2 - 1, 0);
    } else {
      assert n == b * (q1 + q2 + 1) + r;
      ModUnique(n - r, b, q1 + q2 + 1, 0);
    }
  }

  const WrapAroundError := "size may not be zero or negative"

  /** `wrapAround(value, size)`: throws for a size that is not positive,
      otherwise wraps `value` into `[0, size)`. */
  function WrapAround(value: int, size: int): (r: Result<int, string>)
    ensures r.Err? <==> size <= 0
    ensures r.Err? ==> r.error == WrapAroundError
    ensures r.Ok? ==> 0 <= r.value < size && (value - r.value) % size == 0
  {
    if size <= 0 then Err(WrapAroundError)
    else
      ModSpec(value, size);
      Ok(Mod(value, size))
  }

  lemma WrapAroundExamples()
    ensures WrapAround(-1, 5) == Ok(4)
    ensures WrapAround(5, 5) == Ok(0)
    ensures WrapAround(7, 5) == Ok(2)
    ensures WrapAround(3, 0).Err?
  {
    ModSpec(-1, 5);
    ModSpec(5, 5);
    ModSpec(7, 5);
  }

  // ---------------------------------------------------------------------------
  // replaceIllegalFileNameCharactersInString
  // ---------------------------------------------------------------------------

  /** The characters a file name may not hold. */
  const IllegalFileNameChars: set<char> :=
    {'\\', ',', '#', '%', '&', '{', '}', '/', '*', '<', '>', '$', '"', '@', '.', '?'}

  /** The first replace: every illegal character is removed. */
  function StripIllegal(s: string): (r: string)
    ensures forall i :: 0 <= i < |r| ==> r[i] !in IllegalFileNameChars
  {
    if s == [] then []
    else (if s[0] in IllegalFileNameChars then [] else [s[0]]) + StripIllegal(s[1..])
  }

  /** The first replace adds no character. */
  lemma {:induction false} StripIllegalKeeps(s: string)
    ensures forall i :: 0 <= i < |StripIllegal(s)| ==> StripIllegal(s)[i] in s
  {
    if s != [] {
      StripIllegalKeeps(s[1..]);
      var r := StripIllegal(s);
      var t := StripIllegal(s[1..]);
      forall i | 0 <= i < |r| ensures r[i] in s {
        if s[0] in IllegalFileNameChars {
          assert r[i] == t[i] && t[i] in s[1..];
        } else if i > 0 {
          assert r[i] == t[i - 1] && t[i - 1] in s[1..];
        }
      }
    }
  }

  /** Removal works piece by piece, and leaves a clean string as it is. */
  lemma {:induction false} StripIllegalAppend(a: string, b: string)
    ensures StripIllegal(a + b) == StripIllegal(a) + StripIllegal(b)
  {
    if a != [] {
      assert (a + b)[1..] == a[1..] + b;
      StripIllegalAppend(a[1..], b);
    } else {
      assert a + b == b;
    }
  }

  lemma {:induction false} StripIllegalClean(s: string)
    requires forall i :: 0 <= i < |s| ==> s[i] !in IllegalFileNameChars
    ensures StripIllegal(s) == s
  {
    if s != [] {
      StripIllegalClean(s[1..]);
      assert [s[0]] + s[1..] == s;
    }
  }

  /** The colons at the front of `s` dropped. */
  function DropColons(s: string): (r: string)
    ensures |r| <= |s|
    ensures s != [] && s[0] == ':' ==> |r| < |s|
  {
    if s != [] && s[0] == ':' then DropColons(s[1..]) else s
  }

  /** What is left after `DropColons` is a suffix of the input that does not
      start with a colon. */
  lemma {:induction false} DropColonsSuffix(s: string)
    ensures var r := DropColons(s); r == s[|s| - |r|..] && (r == [] || r[0] != ':')
  {
    if s != [] && s[0] == ':' {
      var t := s[1..];
      DropColonsSuffix(t);
      var r := DropColons(t);
      assert t[|t| - |r|..] == s[|s| - |r|..];
    }
  }

  /** What `DropColons` drops is colons only. */
  lemma {:induction false} DropColonsOnlyColons(s: string)
    ensures forall i :: 0 <= i < |s| - |DropColons(s)| ==> s[i] == ':'
  {
    if s != [] && s[0] == ':' {
      DropColonsOnlyColons(s[1..]);
    }
  }

  /** The second replace, /:+/g to " -": each maximal run of colons becomes a
      space and a hyphen. */
  function CollapseColons(s: string): (r: string)
    ensures forall i :: 0 <= i < |r| ==> r[i] != ':'
    decreases |s|
  {
    if s == [] then []
    else if s[0] == ':' then " -" + CollapseColons(DropColons(s))
    else [s[0]] + CollapseColons(s[1..])
  }

  /** The second replace brings in no character but a space and a hyphen. */
  lemma {:induction false} CollapseColonsChars(s: string, banned: set<char>)
    requires ' ' !in banned && '-' !in banned
    requires forall i :: 0 <= i < |s| ==> s[i] !in banned
    ensures forall i :: 0 <= i < |CollapseColons(s)| ==> CollapseColons(s)[i] !in banned
    decreases |s|
  {
    if s != [] {
      if s[0] == ':' {
        var d := DropColons(s);
        DropColonsSuffix(s);
        CollapseColonsChars(d, banned);
        assert forall i :: 0 <= i < |d| ==> d[i] == s[|s| - |d| + i];
      } else {
        CollapseColonsChars(s[1..], banned);
      }
    }
  }

  lemma Regroup<T>(a: seq<T>, b: seq<T>, c: seq<T>, d: seq<T>)
    ensures a + (b + c + d) == (a + b) + c + d
  {
  }

  function Colons(k: nat): (r: string)
    ensures |r| == k
  {
    if k == 0 then [] else [':'] + Colons(k - 1)
  }

  lemma {:induction false} DropColonsAppend(x: string, rest: string)
    requires x != [] && x[|x| - 1] != ':'
    ensures DropColons(x + rest) == DropColons(x) + rest
  {
    if x[0] == ':' {
      assert (x + rest)[1..] == x[1..] + rest;
      DropColonsAppend(x[1..], rest);
    }
  }

  lemma {:induction false} DropColonsKeepsLast(x: string)
    requires x != [] && x[|x| - 1] != ':'
    ensures DropColons(x) != [] && DropColons(x)[|DropColons(x)| - 1] == x[|x| - 1]
  {
    if x[0] == ':' {
      DropColonsKeepsLast(x[1..]);
    }
  }

  lemma {:induction false} DropColonsRun(k: nat, y: string)
    requires y == [] || y[0] != ':'
    ensures DropColons(Colons(k) + y) == y
  {
    if k == 0 {
      assert Colons(k) + y == y;
    } else {
      TailAppend(Colons(k), y);
      assert Colons(k)[1..] == Colons(k - 1);
      DropColonsRun(k - 1, y);
    }
  }

  lemma CollapsePlain(s: string)
    requires s != [] && s[0] != ':'
    ensures CollapseColons(s) == [s[0]] + CollapseColons(s[1..])
  {
  }

  lemma TailAppend<T>(a: seq<T>, b: seq<T>)
    requires a != []
    ensures (a + b)[0] == a[0] && (a + b)[1..] == a[1..] + b
  {
  }

  lemma CollapseColonHead(s: string)
    requires s != [] && s[0] == ':'
    ensures CollapseColons(s) == " -" + CollapseColons(DropColons(s))
  {
  }

  /** A maximal run of colons, however long, becomes exactly " -", and the
      text on either side is treated on its own. */
  lemma {:induction false} ColonRun(x: string, k: nat, y: string)
    requires k >= 1
    requires x == [] || x[|x| - 1] != ':'
    requires y == [] || y[0] != ':'
    ensures CollapseColons(x + Colons(k) + y) == CollapseColons(x) + " -" + CollapseColons(y)
    decreases |x|, 1
  {
    var rest := Colons(k) + y;
    assert x + Colons(k) + y == x + rest;
    if x == [] {
      assert x + rest == rest;
      CollapseColonHead(rest);
      DropColonsRun(k, y);
    } else if x[0] == ':' {
      ColonRunAfterColons(x, k, y);
    } else {
      ColonRunAfterChar(x, k, y);
    }
  }

  lemma {:induction false} ColonRunAfterColons(x: string, k: nat, y: string)
    requires k >= 1 && x != [] && x[0] == ':' && x[|x| - 1] != ':'
    requires y == [] || y[0] != ':'
    ensures CollapseColons(x + (Colons(k) + y)) == CollapseColons(x) + " -" + CollapseColons(y)
    decreases |x|, 0
  {
    var rest := Colons(k) + y;
    DropColonsAppend(x, rest);
    var d := DropColons(x);
    DropColonsKeepsLast(x);
    ColonRun(d, k, y);
    assert d + rest == d + Colons(k) + y;
    CollapseColonHead(x + rest);
    CollapseColonHead(x);
    calc {
      CollapseColons(x + rest);
      " -" + CollapseColons(d + rest);
      " -" + (CollapseColons(d) + " -" + CollapseColons(y));
      { Regroup(" -", CollapseColons(d), " -", CollapseColons(y)); }
      (" -" + CollapseColons(d)) + " -" + CollapseColons(y);
      CollapseColons(x) + " -" + CollapseColons(y);
    }
  }

  lemma {:induction false} ColonRunAfterChar(x: string, k: nat, y: string)
    requires k >= 1 && x != [] && x[0] != ':' && x[|x| - 1] != ':'
    requires y == [] || y[0] != ':'
    ensures CollapseColons(x + (Colons(k) + y)) == CollapseColons(x) + " -" + CollapseColons(y)
    decreases |x|, 0
  {
    var rest := Colons(k) + y;
    var t := x[1..];
    TailAppend(x, rest);
    CollapsePlain(x + rest);
    CollapsePlain(x);
    ColonRun(t, k, y);
    assert t + rest == t + Colons(k) + y;
    calc {
      CollapseColons(x + rest);
      [x[0]] + CollapseColons(t + rest);
      [x[0]] + (CollapseColons(t) + " -" + CollapseColons(y));
      { Regroup([x[0]], CollapseColons(t), " -", CollapseColons(y)); }
      ([x[0]] + CollapseColons(t)) + " -" + CollapseColons(y);
      CollapseColons(x) + " -" + CollapseColons(y);
    }
  }

  /** A string without colons passes through the second replace unchanged. */
  lemma {:induction false} CollapseNoColons(s: string)
    requires ':' !in s
    ensures CollapseColons(s) == s
  {
    if s != [] {
      CollapseNoColons(s[1..]);
      assert [s[0]] + s[1..] == s;
    }
  }

  /** `replaceIllegalFileNameCharactersInString`: the result holds none of the
      illegal characters and no colon. */
  function ReplaceIllegalFileNameCharacters(s: string): (r: string)
    ensures forall i :: 0 <= i < |r| ==> r[i] !in IllegalFileNameChars && r[i] != ':'
  {
    CollapseColonsChars(StripIllegal(s), IllegalFileNameChars);
    CollapseColons(StripIllegal(s))
  }

  lemma FileNameExample(s: string)
    requires s == "A:B::C"
    ensures ReplaceIllegalFileNameCharacters(s) == "A -B -C"
  {
    var t := "B" + Colons(2) + "C";
    StripIllegalClean(s);
    assert s == "A" + Colons(1) + t;
    ColonRun("A", 1, t);
    ColonRun("B", 2, "C");
    CollapseNoColons("A");
    CollapseNoColons("B");
    CollapseNoColons("C");
    calc {
      ReplaceIllegalFileNameCharacters(s);
      CollapseColons(s);
      CollapseColons("A" + Colons(1) + t);
      CollapseColons("A") + " -" + CollapseColons(t);
      "A" + " -" + ("B" + " -" + "C");
      { SpelledOut(); }
      "A -B -C";
    }
  }

  lemma SpelledOut()
    ensures "A" + " -" + ("B" + " -" + "C") == "A -B -C"
  {
  }

  // ---------------------------------------------------------------------------
  // containsOnlyLettersAndUnderscores / capitalizeFirstLetter
  // ---------------------------------------------------------------------------

  predicate IsLower(c: char) { 'a' <= c <= 'z' }

  predicate IsUpper(c: char) { 'A' <= c <= 'Z' }

  /** The class [a-zA-Z_]. */
  predicate IsLetterOrUnderscore(c: char)
  {
    IsLower(c) || IsUpper(c) || c == '_'
  }

  /** /^[a-zA-Z_]+$/ matched by recursion over the string: one class
      character, then either the end or another match. */
  function ContainsOnlyLettersAndUnderscores(s: string): (b: bool)
    ensures b <==> |s| > 0 && forall i :: 0 <= i < |s| ==> IsLetterOrUnderscore(s[i])
  {
    |s| > 0 && IsLetterOrUnderscore(s[0]) && (|s| == 1 || ContainsOnlyLettersAndUnderscores(s[1..]))
  }

  /** `toUpperCase` on one character, for the ASCII letters. */
  function ToUpper(c: char): char
  {
    if IsLower(c) then (c as int - 32) as char else c
  }

  /** `capitalizeFirstLetter`. */
  function CapitalizeFirstLetter(s: string): (r: string)
    ensures |r| == |s|
    ensures |s| > 0 ==> !IsLower(r[0]) && r[1..] == s[1..]
    ensures |s| > 0 && IsLower(s[0]) ==>
      IsUpper(r[0]) && s[0] as int - r[0] as int == 'a' as int - 'A' as int
    ensures |s| > 0 && !IsLower(s[0]) ==> r == s
  {
    if s == [] then "" else [ToUpper(s[0])] + s[1..]
  }

  lemma CapitalizeIdempotent(s: string)
    ensures CapitalizeFirstLetter(CapitalizeFirstLetter(s)) == CapitalizeFirstLetter(s)
  {
  }

  // ---------------------------------------------------------------------------
  // unCamelCase
  // ---------------------------------------------------------------------------

  /** The first replace, /([a-z])([A-Z])/g to "$1 $2": a space between every
      lower-case letter and the upper-case letter right after it. */
  function SpaceLowerUpper(s: string): (r: string)
    ensures |s| > 0 ==> |r| > 0 && r[0] == s[0]
  {
    if |s| < 2 then s
    else if IsLower(s[0]) && IsUpper(s[1]) then [s[0], ' ', s[1]] + SpaceLowerUpper(s[2..])
    else [s[0]] + SpaceLowerUpper(s[1..])
  }

  function WithoutSpaces(s: string): string
  {
    if s == [] then [] else (if s[0] == ' ' then [] else [s[0]]) + WithoutSpaces(s[1..])
  }

  /** The first replace keeps the first character. */
  lemma SpaceLowerUpperHead(s: string)
    requires s != []
    ensures SpaceLowerUpper(s) != [] && SpaceLowerUpper(s)[0] == s[0]
  {
  }

  /** No lower-case letter is directly followed by an upper-case one. */
  predicate NoLowerUpperPair(s: string)
  {
    forall i :: 0 <= i < |s| - 1 ==> !(IsLower(s[i]) && IsUpper(s[i + 1]))
  }

  /** After the first replace no lower-case letter is directly followed by an
      upper-case one. */
  lemma {:induction false} SpaceLowerUpperSeparates(s: string)
    ensures NoLowerUpperPair(SpaceLowerUpper(s))
  {
    var r := SpaceLowerUpper(s);
    if |s| >= 2 {
      if IsLower(s[0]) && IsUpper(s[1]) {
        var t := s[2..];
        SpaceLowerUpperSeparates(t);
        var rt := SpaceLowerUpper(t);
        assert r == [s[0], ' ', s[1]] + rt;
        forall i | 0 <= i < |r| - 1 ensures !(IsLower(r[i]) && IsUpper(r[i + 1])) {
          if i >= 3 {
            assert r[i] == rt[i - 3] && r[i + 1] == rt[i - 2];
          } else {
            assert r[1] == ' ' && r[2] == s[1];
          }
        }
      } else {
        var t := s[1..];
        SpaceLowerUpperSeparates(t);
        var rt := SpaceLowerUpper(t);
        SpaceLowerUpperHead(t);
        assert r == [s[0]] + rt;
        forall i | 0 <= i < |r| - 1 ensures !(IsLower(r[i]) && IsUpper(r[i + 1])) {
          if i >= 1 {
            assert r[i] == rt[i - 1] && r[i + 1] == rt[i];
          } else {
            assert r[1] == t[0] == s[1];
          }
        }
      }
    }
  }

  /** The first replace adds nothing but spaces. */
  lemma {:induction false} SpaceLowerUpperOnlySpaces(s: string)
    ensures WithoutSpaces(SpaceLowerUpper(s)) == WithoutSpaces(s)
  {
    var r := SpaceLowerUpper(s);
    if |s| >= 2 {
      if IsLower(s[0]) && IsUpper(s[1]) {
        var t := s[2..];
        SpaceLowerUpperOnlySpaces(t);
        var rt := SpaceLowerUpper(t);
        assert r == [s[0], ' ', s[1]] + rt;
        assert WithoutSpaces(r) == [s[0]] + WithoutSpaces([' ', s[1]] + rt) by {
          assert r[1..] == [' ', s[1]] + rt;
        }
        assert WithoutSpaces([' ', s[1]] + rt) == WithoutSpaces([s[1]] + rt) by {
          assert ([' ', s[1]] + rt)[1..] == [s[1]] + rt;
        }
        assert WithoutSpaces([s[1]] + rt) == [s[1]] + WithoutSpaces(rt) by {
          assert ([s[1]] + rt)[1..] == rt;
        }
        assert WithoutSpaces(s) == [s[0]] + WithoutSpaces(s[1..]);
        assert WithoutSpaces(s[1..]) == [s[1]] + WithoutSpaces(t) by {
          assert s[1..][1..] == t;
        }
      } else {
        var t := s[1..];
        SpaceLowerUpperOnlySpaces(t);
        assert r == [s[0]] + SpaceLowerUpper(t);
        assert r[1..] == SpaceLowerUpper(t);
      }
    }
  }

  /** The space the first replace puts where `a` meets `b`: one exactly when
      `a` ends in a lower-case letter and `b` starts with an upper-case one. */
  function Joint(a: string, b: string): string
  {
    if a != [] && b != [] && IsLower(a[|a| - 1]) && IsUpper(b[0]) then " " else ""
  }

  /** A string that starts with an upper-case letter starts no pair, so its
      first character is copied. */
  lemma SpaceLowerUpperUpperHead(b: string)
    requires b != [] && IsUpper(b[0])
    ensures SpaceLowerUpper(b) == [b[0]] + SpaceLowerUpper(b[1..])
  {
    if |b| < 2 {
      assert b == [b[0]] && b[1..] == [];
    }
  }

  lemma SpaceLowerUpperCons(c: char, b: string)
    ensures SpaceLowerUpper([c] + b) == [c] + Joint([c], b) + SpaceLowerUpper(b)
  {
    var s := [c] + b;
    if b == [] {
      assert s == [c];
    } else {
      assert s[0] == c && s[1] == b[0];
      if IsLower(c) && IsUpper(b[0]) {
        assert s[2..] == b[1..];
        SpaceLowerUpperUpperHead(b);
      } else {
        assert s[1..] == b;
      }
    }
  }

  /** The first replace treats the two sides of a concatenation on their own
      and puts one space where they meet exactly when a lower-case letter
      meets an upper-case one. Pairs never overlap, so this is the whole
      story: with `SpaceLowerUpper([c]) == [c]` it determines the replace on
      every string, the input's own spaces included. */
  lemma {:induction false} SpaceLowerUpperAppend(a: string, b: string)
    ensures SpaceLowerUpper(a + b) == SpaceLowerUpper(a) + Joint(a, b) + SpaceLowerUpper(b)
    decreases |a|
  {
    if a == [] {
      assert a + b == b;
    } else if |a| == 1 {
      assert a == [a[0]];
      SpaceLowerUpperCons(a[0], b);
    } else {
      var s := a + b;
      assert s[0] == a[0] && s[1] == a[1];
      if IsLower(a[0]) && IsUpper(a[1]) {
        var t := a[2..];
        assert s[2..] == t + b;
        SpaceLowerUpperAppend(t, b);
        assert Joint(t, b) == Joint(a, b);
        Regroup([a[0], ' ', a[1]], SpaceLowerUpper(t), Joint(a, b), SpaceLowerUpper(b));
      } else {
        var t := a[1..];
        assert s[1..] == t + b;
        SpaceLowerUpperAppend(t, b);
        assert Joint(t, b) == Joint(a, b);
        Regroup([a[0]], SpaceLowerUpper(t), Joint(a, b), SpaceLowerUpper(b));
      }
    }
  }

  /** After the first replace no lower-case letter is directly followed by an
      upper-case one, and the replace added nothing but spaces. */
  lemma SpaceLowerUpperSpec(s: string)
    ensures NoLowerUpperPair(SpaceLowerUpper(s))
    ensures WithoutSpaces(SpaceLowerUpper(s)) == WithoutSpaces(s)
    ensures |SpaceLowerUpper(s)| == |s| + LowerUpperPairs(s)
  {
    SpaceLowerUpperLength(s);
    SpaceLowerUpperSeparates(s);
    SpaceLowerUpperOnlySpaces(s);
  }

  /** The number of positions at which a lower-case letter is directly
      followed by an upper-case one. */
  function LowerUpperPairs(s: string): nat
  {
    if |s| < 2 then 0
    else (if IsLower(s[0]) && IsUpper(s[1]) then 1 else 0) + LowerUpperPairs(s[1..])
  }

  /** The first replace adds exactly one character per lower-then-upper pair
      of the input: with `SpaceLowerUpperOnlySpaces`, one space per pair and
      none anywhere else. Pairs never overlap, since an upper-case letter is
      not lower case, so scanning on after the pair misses none. */
  lemma {:induction false} SpaceLowerUpperLength(s: string)
    ensures |SpaceLowerUpper(s)| == |s| + LowerUpperPairs(s)
  {
    if |s| >= 2 {
      if IsLower(s[0]) && IsUpper(s[1]) {
        var t := s[2..];
        SpaceLowerUpperLength(t);
        assert s[1..][1..] == t;
        assert LowerUpperPairs(s[1..]) == LowerUpperPairs(t);
      } else {
        SpaceLowerUpperLength(s[1..]);
      }
    }
  }

  /** Where no lower-case letter precedes an upper-case one the first replace
      changes nothing; with the lemma above, it is idempotent. */
  lemma {:induction false} SpaceLowerUpperNoPair(s: string)
    requires NoLowerUpperPair(s)
    ensures SpaceLowerUpper(s) == s
  {
    if |s| >= 2 {
      SpaceLowerUpperNoPair(s[1..]);
      assert [s[0]] + s[1..] == s;
    }
  }

  lemma SpaceLowerUpperIdempotent(s: string)
    ensures SpaceLowerUpper(SpaceLowerUpper(s)) == SpaceLowerUpper(s)
  {
    SpaceLowerUpperSpec(s);
    SpaceLowerUpperNoPair(SpaceLowerUpper(s));
  }

  /** The class \w of a regular expression. */
  predicate IsWordChar(c: char)
  {
    IsLower(c) || IsUpper(c) || ('0' <= c <= '9') || c == '_'
  }

  /** \b at position `j`: a word character on exactly one side. */
  predicate AtWordBoundary(s: string, j: nat)
    requires j <= |s|
  {
    (j > 0 && IsWordChar(s[j - 1])) != (j < |s| && IsWordChar(s[j]))
  }

  /** Where the run of upper-case letters that starts at `j` ends. */
  function UpperRunEnd(s: string, j: nat): (k: nat)
    requires j <= |s|
    ensures j <= k <= |s| && (k == |s| || !IsUpper(s[k]))
    ensures forall m :: j <= m < k ==> IsUpper(s[m])
    decreases |s| - j
  {
    if j < |s| && IsUpper(s[j]) then UpperRunEnd(s, j + 1) else j
  }

  /** Where /\b([A-Z]+)([A-Z])([a-z])/ matched at `j` inserts its space: the
      greedy run of capitals gives back one letter, which must be followed by a
      lower-case letter. */
  function AcronymSplitAt(s: string, j: nat): Option<nat>
    requires j <= |s|
  {
    if j < |s| && AtWordBoundary(s, j) then
      var k := UpperRunEnd(s, j);
      if k - j >= 2 && k < |s| && IsLower(s[k]) then Some(k - 1) else None
    else None
  }

  /** The pattern matches at `j`, with the space going before position `p`,
      exactly when \b holds at `j`, `s[j..p+1]` are at least two capitals and
      `s[p+1]` is lower case. */
  lemma AcronymSplitAtSpec(s: string, j: nat, p: nat)
    requires j <= |s|
    ensures AcronymSplitAt(s, j) == Some(p) <==>
      (j < |s| && AtWordBoundary(s, j) && j < p && p + 1 < |s| && IsLower(s[p + 1])
       && forall m :: j <= m <= p ==> IsUpper(s[m]))
  {
  }

  /** The leftmost position from `j` on where the pattern matches. */
  function FirstAcronymFrom(s: string, j: nat): (r: Option<nat>)
    requires j <= |s|
    ensures r.Some? ==> (j <= r.value < |s| && AcronymSplitAt(s, r.value).Some?
      && forall m :: j <= m < r.value ==> AcronymSplitAt(s, m).None?)
    ensures r.None? ==> forall m :: j <= m <= |s| ==> AcronymSplitAt(s, m).None?
    decreases |s| - j
  {
    if j == |s| then None
    else if AcronymSplitAt(s, j).Some? then Some(j)
    else FirstAcronymFrom(s, j + 1)
  }

  /** The second replace (not global): a space before the last capital of the
      first capital run that starts a word and is followed by a lower-case letter. */
  function SpaceBeforeLastUpper(s: string): string
  {
    match FirstAcronymFrom(s, 0)
    case None => s
    case Some(j) =>
      var p := AcronymSplitAt(s, j).value;
      s[..p] + " " + s[p..]
  }

  /** The third replace, /^./: the first character upper-cased unless it is a
      line terminator (which `.` does not match). */
  function UpperFirst(s: string): string
  {
    if |s| > 0 && !JsText.IsLineTerminator(s[0])
    then [ToUpper(s[0])] + s[1..]
    else s
  }

  /** Upper-casing the first character by /^./ is `capitalizeFirstLetter`. */
  lemma UpperFirstIsCapitalize(s: string)
    ensures UpperFirst(s) == CapitalizeFirstLetter(s)
  {
  }

  /** `unCamelCase`: the three replaces in order. */
  function UnCamelCase(s: string): string
  {
    UpperFirst(SpaceBeforeLastUpper(SpaceLowerUpper(s)))
  }

  lemma UnCamelCaseAcronym(s: string)
    requires s == "XMLHttp"
    ensures UnCamelCase(s) == "XML Http"
  {
    SpaceLowerUpperNoPair(s);
    AcronymSplitAtSpec(s, 0, 3);
    assert FirstAcronymFrom(s, 0) == Some(0);
    assert s[..3] + " " + s[3..] == "XML Http";
  }
}
