/**
 * The string operations the normaliser relies on: Python's int() on a str,
 * str.split on one separator character, "%0Nd" zero padding, and the
 * code-point ordering Python uses to compare two strs.
 */
module Text {
  import opened Wrappers

  predicate IsDigit(c: char)
  {
    '0' <= c <= '9'
  }

  predicate AllDigits(s: string)
  {
    forall i | 0 <= i < |s| :: IsDigit(s[i])
  }

  function DigitChar(n: nat): (c: char)
    requires n < 10
    ensures IsDigit(c)
  {
    ('0' as int + n) as char
  }

  /** The value of a string of ASCII decimal digits, most significant first. */
  function DigitsValue(s: string): nat
    requires AllDigits(s)
  {
    if s == [] then 0
    else 10 * DigitsValue(s[..|s| - 1]) + (s[|s| - 1] as int - '0' as int)
  }

  /**
   * The longest digit string int() converts (sys.int_info.default_max_str_digits,
   * CPython 3.11 and later); leading zeros count towards it.
   */
  const MaxStrDigits: nat := 4300

  /** The digits int() accepts after an optional sign. */
  predicate IsDigitRun(s: string)
  {
    0 < |s| <= MaxStrDigits && AllDigits(s)
  }

  /**
   * int(s) for a str: an optional sign followed by at least one and at most
   * MaxStrDigits ASCII digits; leading zeros are allowed. None stands for the
   * ValueError int() raises.
   */
  function ParseInt(s: string): (r: Option<int>)
    ensures r.Some? <==> IsDigitRun(s) || (|s| > 0 && s[0] in "+-" && IsDigitRun(s[1..]))
    ensures r.Some? && s[0] == '-' ==> r.value <= 0
    ensures r.Some? && s[0] != '-' ==> r.value >= 0
    ensures r.Some? && IsDigitRun(s) ==> r.value == DigitsValue(s)
    ensures r.Some? && s[0] in "+-" ==>
      r.value == (if s[0] == '-' then -(DigitsValue(s[1..]) as int) else DigitsValue(s[1..]))
  {
    if |s| > 0 && (s[0] == '+' || s[0] == '-') then
      if IsDigitRun(s[1..]) then
        var magnitude: int := DigitsValue(s[1..]);
        Some(if s[0] == '-' then -magnitude else magnitude)
      else
        None
    else if IsDigitRun(s) then
      Some(DigitsValue(s))
    else
      None
  }

  function Pow10(w: nat): (p: nat)
    ensures p >= 1
  {
    if w == 0 then 1 else 10 * Pow10(w - 1)
  }

  /** "%0{width}d" % n, for an n that fits in width digits. */
  function Pad(n: nat, width: nat): (s: string)
    requires n < Pow10(width)
    ensures |s| == width && AllDigits(s)
  {
    if width == 0 then [] else Pad(n / 10, width - 1) + [DigitChar(n % 10)]
  }

  /** Zero padding loses nothing: the padded digits read back as n. */
  lemma {:induction false} PadValue(n: nat, width: nat)
    requires n < Pow10(width)
    ensures DigitsValue(Pad(n, width)) == n
  {
    if width > 0 {
      PadValue(n / 10, width - 1);
      assert Pad(n, width)[..width - 1] == Pad(n / 10, width - 1);
    }
  }

  /** int() reads a zero-padded number back, leading zeros included. */
  lemma ParseIntPad(n: nat, width: nat)
    requires 0 < width <= MaxStrDigits && n < Pow10(width)
    ensures ParseInt(Pad(n, width)) == Some(n)
  {
    PadValue(n, width);
  }

  lemma PadInjective(m: nat, n: nat, width: nat)
    requires m < Pow10(width) && n < Pow10(width)
    ensures Pad(m, width) == Pad(n, width) <==> m == n
  {
    PadValue(m, width);
    PadValue(n, width);
  }

  /** The pieces after one more non-separator character: it joins the last piece. */
  function ExtendLast(parts: seq<string>, c: char): (r: seq<string>)
    requires |parts| >= 1
    ensures |r| == |parts|
  {
    parts[..|parts| - 1] + [parts[|parts| - 1] + [c]]
  }

  /**
   * str.split(sep): the pieces between occurrences of sep, in order; a
   * string without sep is one piece, and "" splits into [""].
   */
  function Split(s: string, sep: char): (parts: seq<string>)
    ensures |parts| >= 1
  {
    if s == [] then [[]]
    else
      var init := Split(s[..|s| - 1], sep);
      var c := s[|s| - 1];
      if c == sep then init + [[]] else ExtendLast(init, c)
  }

  /** No piece of a split contains the separator. */
  lemma {:induction false} SplitPiecesAvoidSep(s: string, sep: char)
    ensures forall i | 0 <= i < |Split(s, sep)| :: sep !in Split(s, sep)[i]
  {
    if s != [] {
      var init, c := s[..|s| - 1], s[|s| - 1];
      var parts := Split(init, sep);
      SplitPiecesAvoidSep(init, sep);
      if c != sep {
        var grown := ExtendLast(parts, c);
        assert forall i | 0 <= i < |grown| - 1 :: grown[i] == parts[i];
        assert grown[|grown| - 1] == parts[|parts| - 1] + [c];
      }
    }
  }

  /** sep.join(parts), the inverse of Split. */
  function Join(parts: seq<string>, sep: char): string
    requires |parts| >= 1
  {
    if |parts| == 1 then parts[0]
    else Join(parts[..|parts| - 1], sep) + [sep] + parts[|parts| - 1]
  }

  lemma JoinExtendLast(parts: seq<string>, sep: char, c: char)
    requires |parts| >= 1
    ensures Join(ExtendLast(parts, c), sep) == Join(parts, sep) + [c]
  {
    var k := |parts| - 1;
    var grown := ExtendLast(parts, c);
    if k > 0 {
      assert grown[..k] == parts[..k];
    }
  }

  lemma JoinSnoc(parts: seq<string>, p: string, sep: char)
    requires |parts| >= 1
    ensures Join(parts + [p], sep) == Join(parts, sep) + [sep] + p
  {
    assert (parts + [p])[..|parts|] == parts;
  }

  /** Joining the pieces of a split gives back the original string. */
  lemma {:induction false} JoinSplit(s: string, sep: char)
    ensures Join(Split(s, sep), sep) == s
  {
    if s != [] {
      var init, c := s[..|s| - 1], s[|s| - 1];
      var parts := Split(init, sep);
      JoinSplit(init, sep);
      assert s == init + [c];
      if c == sep {
        assert Split(s, sep) == parts + [[]];
        JoinSnoc(parts, [], sep);
      } else {
        assert Split(s, sep) == ExtendLast(parts, c);
        JoinExtendLast(parts, sep, c);
      }
    }
  }

  lemma {:induction false} SplitWithoutSep(s: string, sep: char)
    requires forall k | 0 <= k < |s| :: s[k] != sep
    ensures Split(s, sep) == [s]
  {
    if s != [] {
      var init, c := s[..|s| - 1], s[|s| - 1];
      assert s == init + [c];
      assert c != sep;
      calc {
        Split(s, sep);
        == { SplitSnoc(init, c, sep); }
        ExtendLast(Split(init, sep), c);
        == { SplitWithoutSep(init, sep); }
        ExtendLast([init], c);
        == { assert [init][..0] == []; }
        [s];
      }
    }
  }

  /** One more character either starts a new piece (the separator) or extends the last one. */
  lemma SplitSnoc(s: string, c: char, sep: char)
    ensures Split(s + [c], sep) == if c == sep then Split(s, sep) + [[]] else ExtendLast(Split(s, sep), c)
  {
    assert (s + [c])[..|s|] == s;
  }

  lemma ExtendLastOfConcat(left: seq<string>, right: seq<string>, c: char)
    requires |right| >= 1
    ensures ExtendLast(left + right, c) == left + ExtendLast(right, c)
  {
    var both := left + right;
    assert both[..|both| - 1] == left + right[..|right| - 1];
  }

  /** Splitting distributes over a separator: (a + sep + b).split(sep) == a.split(sep) + b.split(sep). */
  lemma {:induction false} SplitAtSep(a: string, sep: char, b: string)
    ensures Split(a + [sep] + b, sep) == Split(a, sep) + Split(b, sep)
  {
    if b == [] {
      SplitSnoc(a, sep, sep);
      assert a + [sep] + b == a + [sep];
      assert Split(b, sep) == [[]];
    } else {
      var b', c := b[..|b| - 1], b[|b| - 1];
      var left, right := Split(a, sep), Split(b', sep);
      SplitAtSep(a, sep, b');
      assert a + [sep] + b == (a + [sep] + b') + [c];
      assert b == b' + [c];
      SplitSnoc(a + [sep] + b', c, sep);
      SplitSnoc(b', c, sep);
      if c != sep {
        ExtendLastOfConcat(left, right, c);
      }
    }
  }

  /** Splitting a join of separator-free pieces gives back the pieces. */
  lemma {:induction false} SplitJoin(parts: seq<string>, sep: char)
    requires |parts| >= 1
    requires forall i | 0 <= i < |parts| :: sep !in parts[i]
    ensures Split(Join(parts, sep), sep) == parts
  {
    var k := |parts| - 1;
    assert forall j | 0 <= j < |parts[k]| :: parts[k][j] in parts[k];
    SplitWithoutSep(parts[k], sep);
    if k > 0 {
      SplitJoin(parts[..k], sep);
      SplitAtSep(Join(parts[..k], sep), sep, parts[k]);
      assert parts == parts[..k] + [parts[k]];
    }
  }

  /**
   * a < b on Python strs: the first differing code point decides, and a
   * proper prefix is smaller.
   */
  predicate StrLt(a: string, b: string)
    ensures StrLt(a, b) ==> a != b
    ensures |a| < |b| && a == b[..|a|] ==> StrLt(a, b)
  {
    if b == [] then false
    else if a == [] then true
    else if a[0] != b[0] then a[0] < b[0]
    else StrLt(a[1..], b[1..])
  }

  /** not (b < a): the order list.sort keeps two strs in. */
  predicate StrLe(a: string, b: string)
  {
    !StrLt(b, a)
  }

  lemma {:induction false} StrLtIrreflexive(a: string)
    ensures !StrLt(a, a)
  {
    if a != [] {
      StrLtIrreflexive(a[1..]);
    }
  }

  lemma {:induction false} StrLtTransitive(a: string, b: string, c: string)
    requires StrLt(a, b) && StrLt(b, c)
    ensures StrLt(a, c)
  {
    if a != [] && a[0] == b[0] && b[0] == c[0] {
      StrLtTransitive(a[1..], b[1..], c[1..]);
    }
  }

  lemma {:induction false} StrLtTotal(a: string, b: string)
    ensures StrLt(a, b) || a == b || StrLt(b, a)
  {
    if a != [] && b != [] && a[0] == b[0] {
      StrLtTotal(a[1..], b[1..]);
      assert a == [a[0]] + a[1..] && b == [b[0]] + b[1..];
    }
  }

  lemma StrLtAsymmetric(a: string, b: string)
    requires StrLt(a, b)
    ensures !StrLt(b, a)
  {
    if StrLt(b, a) {
      StrLtTransitive(a, b, a);
      StrLtIrreflexive(a);
    }
  }

  lemma StrLeTransitive(a: string, b: string, c: string)
    requires StrLe(a, b) && StrLe(b, c)
    ensures StrLe(a, c)
  {
    StrLtTotal(a, b);
    if StrLt(c, a) && StrLt(a, b) {
      StrLtTransitive(c, a, b);
    }
  }

  /** Comparing two concatenations whose first parts have the same length. */
  lemma {:induction false} StrLtConcat(a: string, b: string, c: string, d: string)
    requires |a| == |c|
    ensures StrLt(a + b, c + d) <==> StrLt(a, c) || (a == c && StrLt(b, d))
  {
    if a == [] {
      assert a + b == b && c + d == d;
    } else {
      assert (a + b)[0] == a[0] && (c + d)[0] == c[0];
      if a[0] == c[0] {
        assert (a + b)[1..] == a[1..] + b && (c + d)[1..] == c[1..] + d;
        StrLtConcat(a[1..], b, c[1..], d);
        assert a == [a[0]] + a[1..] && c == [c[0]] + c[1..];
      }
    }
  }

  /** Zero-padded numbers of one width compare as strings as they do as numbers. */
  lemma {:induction false} PadLt(m: nat, n: nat, width: nat)
    requires m < Pow10(width) && n < Pow10(width)
    ensures StrLt(Pad(m, width), Pad(n, width)) <==> m < n
  {
    if width > 0 {
      var hm, hn := Pad(m / 10, width - 1), Pad(n / 10, width - 1);
      var lm, ln := DigitChar(m % 10), DigitChar(n % 10);
      PadLt(m / 10, n / 10, width - 1);
      PadInjective(m / 10, n / 10, width - 1);
      StrLtConcat(hm, [lm], hn, [ln]);
      assert StrLt([lm], [ln]) <==> m % 10 < n % 10;
    }
  }
}
