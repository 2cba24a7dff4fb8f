/** The string operations of Python's and JavaScript's standard libraries that the log tool
    relies on: splitting on one character, stripping, ASCII case mapping and decimal digits.
    Strings are sequences of characters. */
module Text {
  import opened Wrappers

  /** The truth test Python and JavaScript apply to an optional string: the string when it is
      present and not empty, and nothing otherwise. */
  function Given(p: Option<string>): (r: Option<string>)
    ensures r.Some? <==> p.Some? && p.value != ""
    ensures r.Some? ==> r == p
  {
    if p.Some? && p.value != "" then p else None
  }

  function Min(a: int, b: int): int
  {
    if a <= b then a else b
  }

  // ------------------------------------------------------------------ whitespace

  /** Python's `str.isspace` for one character. */
  predicate IsSpace(c: char)
  {
    || ('\U{9}' <= c <= '\U{D}')
    || ('\U{1C}' <= c <= '\U{20}')
    || c == '\U{85}' || c == '\U{A0}' || c == '\U{1680}'
    || ('\U{2000}' <= c <= '\U{200A}')
    || c == '\U{2028}' || c == '\U{2029}' || c == '\U{202F}' || c == '\U{205F}' || c == '\U{3000}'
  }

  // ------------------------------------------------------------------ splitting

  /** Python's `s.split(sep, maxsplit)` for a one-character separator: the string is cut at the
      first `maxsplit` occurrences of `sep`, from the left, and the separators are dropped. Read
      one character at a time: a separator opens a new part while cuts remain; any other
      character, or a separator once the cuts are used up, belongs to the current part. */
  function SplitN(s: string, sep: char, maxsplit: nat): (parts: seq<string>)
    ensures |parts| >= 1
  {
    if s == [] then [[]]
    else if s[0] == sep && maxsplit > 0 then [[]] + SplitN(s[1..], sep, maxsplit - 1)
    else
      var rest := SplitN(s[1..], sep, maxsplit);
      [[s[0]] + rest[0]] + rest[1..]
  }

  /** Python's `s.split(sep)` for a one-character separator: no limit on the number of cuts
      (a string of length n holds at most n separators). */
  function Split(s: string, sep: char): (parts: seq<string>)
    ensures forall k :: 0 <= k < |parts| ==> sep !in parts[k]
  {
    SplitNShape(s, sep, |s|);
    CountBound(s, sep);
    SplitN(s, sep, |s|)
  }

  /** Python's `sep.join(parts)`. */
  function Join(parts: seq<string>, sep: char): string
  {
    if parts == [] then []
    else if |parts| == 1 then parts[0]
    else parts[0] + [sep] + Join(parts[1..], sep)
  }

  lemma {:induction false} CountBound(s: string, c: char)
    ensures multiset(s)[c] <= |s|
  {
    if s != [] {
      CountBound(s[1..], c);
      CountCons(s, c);
    }
  }

  /** The occurrences of `c` in a string are those of its first character and of the rest. */
  lemma CountCons(s: string, c: char)
    requires s != []
    ensures multiset(s)[c] == multiset(s[1..])[c] + (if s[0] == c then 1 else 0)
  {
    assert s == [s[0]] + s[1..];
  }

  /** The first part of the split of the rest, with the first character put back in front. */
  lemma SplitNKeep(s: string, sep: char, maxsplit: nat)
    requires s != [] && (s[0] != sep || maxsplit == 0)
    ensures var rest := SplitN(s[1..], sep, maxsplit);
            && SplitN(s, sep, maxsplit) == [[s[0]] + rest[0]] + rest[1..]
            && |SplitN(s, sep, maxsplit)| == |rest|
            && SplitN(s, sep, maxsplit)[|rest| - 1] == (if |rest| == 1 then [s[0]] + rest[0] else rest[|rest| - 1])
            && forall k :: 1 <= k < |rest| ==> SplitN(s, sep, maxsplit)[k] == rest[k]
  {
    var rest := SplitN(s[1..], sep, maxsplit);
    var p := [[s[0]] + rest[0]] + rest[1..];
    assert SplitN(s, sep, maxsplit) == p;
    assert forall k :: 1 <= k < |rest| ==> p[k] == rest[1..][k - 1] == rest[k];
  }

  /** A cut at the first character: an empty part, then the split of the rest. */
  lemma SplitNCut(s: string, sep: char, maxsplit: nat)
    requires s != [] && s[0] == sep && maxsplit > 0
    ensures var rest := SplitN(s[1..], sep, maxsplit - 1);
            && SplitN(s, sep, maxsplit) == [[]] + rest
            && |SplitN(s, sep, maxsplit)| == |rest| + 1
            && SplitN(s, sep, maxsplit)[|rest|] == rest[|rest| - 1]
            && forall k :: 1 <= k <= |rest| ==> SplitN(s, sep, maxsplit)[k] == rest[k - 1]
  {
  }

  /** Without cuts the string is its only part. */
  lemma {:induction false} SplitNZero(s: string, sep: char)
    ensures SplitN(s, sep, 0) == [s]
  {
    if s != [] {
      SplitNZero(s[1..], sep);
      SplitNKeep(s, sep, 0);
      assert [s[0]] + s[1..] == s;
    }
  }

  /** Splitting loses nothing: joining the parts with the separator gives the string back. */
  lemma {:induction false} JoinSplitN(s: string, sep: char, maxsplit: nat)
    ensures Join(SplitN(s, sep, maxsplit), sep) == s
  {
    if s != [] {
      if s[0] == sep && maxsplit > 0 {
        JoinSplitN(s[1..], sep, maxsplit - 1);
        JoinOfCut(s, sep, maxsplit);
      } else {
        JoinSplitN(s[1..], sep, maxsplit);
        JoinOfKeep(s, sep, maxsplit);
      }
    }
  }

  lemma JoinOfCut(s: string, sep: char, maxsplit: nat)
    requires s != [] && s[0] == sep && maxsplit > 0
    requires Join(SplitN(s[1..], sep, maxsplit - 1), sep) == s[1..]
    ensures Join(SplitN(s, sep, maxsplit), sep) == s
  {
    SplitNCut(s, sep, maxsplit);
    JoinCons([], SplitN(s[1..], sep, maxsplit - 1), sep);
    assert s == [s[0]] + s[1..];
  }

  lemma JoinOfKeep(s: string, sep: char, maxsplit: nat)
    requires s != [] && (s[0] != sep || maxsplit == 0)
    requires Join(SplitN(s[1..], sep, maxsplit), sep) == s[1..]
    ensures Join(SplitN(s, sep, maxsplit), sep) == s
  {
    SplitNKeep(s, sep, maxsplit);
    JoinHead([s[0]], SplitN(s[1..], sep, maxsplit), sep);
    assert s == [s[0]] + s[1..];
  }

  lemma JoinCons(head: string, rest: seq<string>, sep: char)
    requires |rest| >= 1
    ensures Join([head] + rest, sep) == head + [sep] + Join(rest, sep)
  {
    assert ([head] + rest)[1..] == rest;
  }

  /** Putting characters in front of the first part puts them in front of the join. */
  lemma JoinHead(h: string, rest: seq<string>, sep: char)
    requires |rest| >= 1
    ensures Join([h + rest[0]] + rest[1..], sep) == h + Join(rest, sep)
  {
    if |rest| > 1 {
      assert ([h + rest[0]] + rest[1..])[1..] == rest[1..];
    }
  }

  /** `maxsplit` bounds the number of cuts: there are as many as there are separators, up to
      `maxsplit`; every part but the last is free of the separator, and so is the last one when
      there were no more separators than `maxsplit`. */
  lemma SplitNShape(s: string, sep: char, maxsplit: nat)
    ensures |SplitN(s, sep, maxsplit)| == Min(maxsplit, multiset(s)[sep]) + 1
    ensures forall k :: 0 <= k < |SplitN(s, sep, maxsplit)| - 1 ==> sep !in SplitN(s, sep, maxsplit)[k]
    ensures multiset(s)[sep] <= maxsplit ==> sep !in SplitN(s, sep, maxsplit)[|SplitN(s, sep, maxsplit)| - 1]
  {
    SplitNCount(s, sep, maxsplit);
    SplitNInner(s, sep, maxsplit);
    SplitNLast(s, sep, maxsplit);
  }

  lemma {:induction false} SplitNCount(s: string, sep: char, maxsplit: nat)
    ensures |SplitN(s, sep, maxsplit)| == Min(maxsplit, multiset(s)[sep]) + 1
  {
    if s != [] {
      CountCons(s, sep);
      if s[0] == sep && maxsplit > 0 {
        SplitNCount(s[1..], sep, maxsplit - 1);
        SplitNCut(s, sep, maxsplit);
      } else {
        SplitNCount(s[1..], sep, maxsplit);
        SplitNKeep(s, sep, maxsplit);
      }
    }
  }

  lemma {:induction false} SplitNInner(s: string, sep: char, maxsplit: nat)
    ensures forall k :: 0 <= k < |SplitN(s, sep, maxsplit)| - 1 ==> sep !in SplitN(s, sep, maxsplit)[k]
  {
    if s == [] {
    } else if s[0] == sep && maxsplit > 0 {
      SplitNInner(s[1..], sep, maxsplit - 1);
      SplitNCut(s, sep, maxsplit);
    } else {
      var rest := SplitN(s[1..], sep, maxsplit);
      SplitNInner(s[1..], sep, maxsplit);
      SplitNKeep(s, sep, maxsplit);
      if s[0] == sep {
        SplitNZero(s[1..], sep);
      }
    }
  }

  lemma {:induction false} SplitNLast(s: string, sep: char, maxsplit: nat)
    ensures multiset(s)[sep] <= maxsplit ==> sep !in SplitN(s, sep, maxsplit)[|SplitN(s, sep, maxsplit)| - 1]
  {
    if s != [] {
      CountCons(s, sep);
      if s[0] == sep && maxsplit > 0 {
        SplitNLast(s[1..], sep, maxsplit - 1);
        SplitNCut(s, sep, maxsplit);
      } else if multiset(s)[sep] <= maxsplit {
        SplitNLast(s[1..], sep, maxsplit);
        LastOfKeep(s, sep, maxsplit);
      }
    }
  }

  lemma LastOfKeep(s: string, sep: char, maxsplit: nat)
    requires s != [] && s[0] != sep
    requires var rest := SplitN(s[1..], sep, maxsplit); sep !in rest[|rest| - 1]
    ensures sep !in SplitN(s, sep, maxsplit)[|SplitN(s, sep, maxsplit)| - 1]
  {
    SplitNKeep(s, sep, maxsplit);
  }

  /** A part free of the separator, the separator, and a rest: the part comes off whole, with one
      cut. */
  lemma {:induction false} SplitNPrefix(a: string, sep: char, rest: string, maxsplit: nat)
    requires sep !in a
    ensures SplitN(a + [sep] + rest, sep, maxsplit + 1) == [a] + SplitN(rest, sep, maxsplit)
  {
    var s := a + [sep] + rest;
    if a == [] {
      assert s[1..] == rest;
    } else {
      assert s[1..] == a[1..] + [sep] + rest;
      SplitNPrefix(a[1..], sep, rest, maxsplit);
      SplitNKeep(s, sep, maxsplit + 1);
      assert [a[0]] + a[1..] == a;
    }
  }

  /** The converse of JoinSplitN: `n + 1` parts, all but the last free of the separator, are
      exactly what splitting their join at most `n` times gives. */
  lemma {:induction false} SplitNOfJoin(parts: seq<string>, sep: char)
    requires |parts| >= 1
    requires forall k :: 0 <= k < |parts| - 1 ==> sep !in parts[k]
    ensures SplitN(Join(parts, sep), sep, |parts| - 1) == parts
  {
    if |parts| == 1 {
      SplitNZero(parts[0], sep);
    } else {
      var head, rest := parts[0], parts[1..];
      assert parts == [head] + rest;
      JoinCons(head, rest, sep);
      SplitNOfJoin(rest, sep);
      SplitNPrefix(head, sep, Join(rest, sep), |rest| - 1);
    }
  }

  /** A join holds one separator between each two parts, and none besides when the parts have none. */
  lemma {:induction false} JoinCount(parts: seq<string>, sep: char)
    requires |parts| >= 1
    requires forall k :: 0 <= k < |parts| ==> sep !in parts[k]
    ensures multiset(Join(parts, sep))[sep] == |parts| - 1
  {
    if |parts| > 1 {
      JoinCount(parts[1..], sep);
      assert multiset(parts[0])[sep] == 0;
    }
  }

  /** Once `maxsplit` covers every separator, raising it changes nothing. */
  lemma {:induction false} SplitNSaturates(s: string, sep: char, m1: nat, m2: nat)
    requires multiset(s)[sep] <= m1 && multiset(s)[sep] <= m2
    ensures SplitN(s, sep, m1) == SplitN(s, sep, m2)
  {
    if s != [] {
      CountCons(s, sep);
      if s[0] == sep {
        SplitNSaturates(s[1..], sep, m1 - 1, m2 - 1);
      } else {
        SplitNSaturates(s[1..], sep, m1, m2);
      }
    }
  }

  /** Splitting undoes joining: parts free of the separator come back from `Split` unchanged. */
  lemma SplitOfJoin(parts: seq<string>, sep: char)
    requires |parts| >= 1
    requires forall k :: 0 <= k < |parts| ==> sep !in parts[k]
    ensures Split(Join(parts, sep), sep) == parts
  {
    var s := Join(parts, sep);
    var n := |parts| - 1;
    assert SplitN(s, sep, n) == parts by {
      SplitNOfJoin(parts, sep);
    }
    assert SplitN(s, sep, |s|) == SplitN(s, sep, n) by {
      JoinCount(parts, sep);
      CountBound(s, sep);
      SplitNSaturates(s, sep, n, |s|);
    }
    assert Split(s, sep) == SplitN(s, sep, |s|);
  }

  // ------------------------------------------------------------------ stripping

  /** How many characters at the start of `s` satisfy `drop`. */
  function LeadCount(s: string, drop: char -> bool): (n: nat)
    ensures n <= |s|
    ensures forall k :: 0 <= k < n ==> drop(s[k])
    ensures n < |s| ==> !drop(s[n])
  {
    if s == [] || !drop(s[0]) then 0 else 1 + LeadCount(s[1..], drop)
  }

  /** How many characters at the end of `s` satisfy `drop`. */
  function TrailCount(s: string, drop: char -> bool): (n: nat)
    ensures n <= |s|
    ensures forall k :: |s| - n <= k < |s| ==> drop(s[k])
    ensures n < |s| ==> !drop(s[|s| - 1 - n])
  {
    if s == [] || !drop(s[|s| - 1]) then 0 else 1 + TrailCount(s[..|s| - 1], drop)
  }

  /** Python's `str.strip`: removes the longest prefix, and then the longest suffix, made of
      characters that satisfy `drop`. What is left is empty exactly when every character is
      dropped, and otherwise begins and ends with a kept character. */
  function Strip(s: string, drop: char -> bool): (r: string)
    ensures r == [] <==> forall k :: 0 <= k < |s| ==> drop(s[k])
    ensures r != [] ==> !drop(r[0]) && !drop(r[|r| - 1])
    ensures |r| <= |s|
  {
    var a := LeadCount(s, drop);
    var rest := s[a..];
    var b := TrailCount(rest, drop);
    rest[..|rest| - b]
  }

  /** Stripping keeps the core of a string: characters removed on either side must all be
      dropped ones, and a core that begins and ends with kept characters is left intact. */
  lemma {:induction false} StripPadded(p: string, r: string, q: string, drop: char -> bool)
    requires forall k :: 0 <= k < |p| ==> drop(p[k])
    requires forall k :: 0 <= k < |q| ==> drop(q[k])
    requires r != [] ==> !drop(r[0]) && !drop(r[|r| - 1])
    ensures Strip(p + r + q, drop) == r
  {
    var s := p + r + q;
    if r == [] {
      assert forall k :: 0 <= k < |s| ==> drop(s[k]) by {
        forall k | 0 <= k < |s| ensures drop(s[k]) {
          if k < |p| { assert s[k] == p[k]; } else { assert s[k] == q[k - |p|]; }
        }
      }
    } else {
      var a := LeadCount(s, drop);
      assert s[|p|] == r[0];
      assert a == |p|;
      var rest := s[a..];
      assert rest == r + q;
      var b := TrailCount(rest, drop);
      assert rest[|rest| - 1 - |q|] == r[|r| - 1];
      assert b == |q|;
      assert rest[..|rest| - b] == r;
    }
  }

  // ------------------------------------------------------------------ ASCII case

  function UpperChar(c: char): char
  {
    if 'a' <= c <= 'z' then (c as int - 32) as char else c
  }

  function LowerChar(c: char): char
  {
    if 'A' <= c <= 'Z' then (c as int + 32) as char else c
  }

  /** Python's `str.upper`, restricted to the ASCII letters. */
  function Upper(s: string): string
  {
    seq(|s|, k requires 0 <= k < |s| => UpperChar(s[k]))
  }

  /** JavaScript's `String.prototype.toLowerCase`, restricted to the ASCII letters. */
  function Lower(s: string): string
  {
    seq(|s|, k requires 0 <= k < |s| => LowerChar(s[k]))
  }

  /** Lower-casing an upper-cased string gives its lower-case form. */
  lemma LowerOfUpper(s: string)
    ensures Lower(Upper(s)) == Lower(s)
  {
  }

  // ------------------------------------------------------------------ decimal digits

  predicate IsDigit(c: char)
  {
    '0' <= c <= '9'
  }

  predicate AllDigits(s: string)
  {
    forall k :: 0 <= k < |s| ==> IsDigit(s[k])
  }

  function DigitChar(d: nat): (c: char)
    requires d < 10
    ensures IsDigit(c)
  {
    ('0' as int + d) as char
  }

  function DigitValue(c: char): (d: nat)
    requires IsDigit(c)
    ensures d < 10 && DigitChar(d) == c
  {
    c as int - '0' as int
  }

  function Pow10(n: nat): (p: nat)
    ensures p >= 1
  {
    if n == 0 then 1 else 10 * Pow10(n - 1)
  }

  /** The number a string of decimal digits denotes; it is below ten to the string's length. */
  function DigitsValue(s: string): (v: nat)
    requires AllDigits(s)
    ensures v < Pow10(|s|)
  {
    if s == [] then 0 else 10 * DigitsValue(s[..|s| - 1]) + DigitValue(s[|s| - 1])
  }

  /** The `w` lowest decimal digits of `n`, most significant first, padded with zeros. */
  function FixedDigits(n: nat, w: nat): (s: string)
    ensures |s| == w && AllDigits(s)
  {
    if w == 0 then [] else FixedDigits(n / 10, w - 1) + [DigitChar(n % 10)]
  }

  /** JavaScript's `Number.prototype.toString()` for a non-negative integer. */
  function Decimal(n: nat): (s: string)
    ensures s != [] && AllDigits(s)
  {
    if n < 10 then [DigitChar(n)] else Decimal(n / 10) + [DigitChar(n % 10)]
  }

  /** Reading back `w` digits written for a number below ten to the `w` gives the number. */
  lemma {:induction false} DigitsValueOfFixed(n: nat, w: nat)
    requires n < Pow10(w)
    ensures DigitsValue(FixedDigits(n, w)) == n
  {
    if w > 0 {
      var s := FixedDigits(n, w);
      DivTen(n, Pow10(w - 1));
      DigitsValueOfFixed(n / 10, w - 1);
      assert s[..|s| - 1] == FixedDigits(n / 10, w - 1);
      assert DigitValue(s[|s| - 1]) == n % 10;
    }
  }

  /** Dropping the last decimal digit of a number below `10 * p` leaves a number below `p`. */
  lemma DivTen(n: nat, p: nat)
    requires n < 10 * p
    ensures n / 10 < p && n == 10 * (n / 10) + n % 10
  {
  }

  /** Writing back the value of a digit string, at its own width, gives the string. */
  lemma {:induction false} FixedOfDigitsValue(s: string)
    requires AllDigits(s)
    ensures FixedDigits(DigitsValue(s), |s|) == s
  {
    if s != [] {
      var init := s[..|s| - 1];
      FixedOfDigitsValue(init);
      var v := DigitsValue(s);
      assert v / 10 == DigitsValue(init) && v % 10 == DigitValue(s[|s| - 1]);
      assert s == init + [s[|s| - 1]];
    }
  }

  /** A number with exactly `w` decimal digits is written by `Decimal` as its `w` fixed digits. */
  lemma {:induction false} DecimalIsFixed(n: nat, w: nat)
    requires w >= 1 && n < Pow10(w)
    requires w > 1 ==> Pow10(w - 1) <= n
    ensures Decimal(n) == FixedDigits(n, w)
  {
    if w == 1 {
      assert FixedDigits(n, 1) == FixedDigits(n / 10, 0) + [DigitChar(n % 10)];
    } else {
      assert Pow10(w - 1) == 10 * Pow10(w - 2);
      DecimalIsFixed(n / 10, w - 1);
    }
  }

  /** `Decimal` is read back by `DigitsValue`. */
  lemma {:induction false} DigitsValueOfDecimal(n: nat)
    ensures DigitsValue(Decimal(n)) == n
  {
    if n >= 10 {
      DigitsValueOfDecimal(n / 10);
      var s := Decimal(n);
      assert s[..|s| - 1] == Decimal(n / 10);
    }
  }
}
