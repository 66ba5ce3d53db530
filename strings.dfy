/** The .NET string and integer primitives the core relies on: ordinal
    `IndexOf`/`Contains`, `Contains` with `OrdinalIgnoreCase`, `Replace`,
    `Split` with `RemoveEmptyEntries`, `int.TryParse` and `int.ToString`.
    Characters are ASCII-only where case or digits matter. */
module Strings {
  import opened Wrappers

  // ---------------------------------------------------------------------
  // Ordinal search
  // ---------------------------------------------------------------------

  /** `p` occurs in `s` starting at index `i`. */
  predicate OccursAt(s: string, p: string, i: nat) {
    i + |p| <= |s| && s[i..i + |p|] == p
  }

  lemma OccursShift(s: string, p: string, j: nat)
    requires |s| > 0
    ensures OccursAt(s[1..], p, j) <==> OccursAt(s, p, j + 1)
  {
    if j + |p| <= |s[1..]| {
      assert s[1..][j..j + |p|] == s[j + 1..j + 1 + |p|];
    }
  }

  /** Ordinal `String.IndexOf`: the leftmost occurrence of `p` in `s`. */
  function IndexOf(s: string, p: string): (r: Option<nat>)
    ensures r.Some? ==> OccursAt(s, p, r.value)
    ensures r.Some? ==> forall j: nat :: j < r.value ==> !OccursAt(s, p, j)
    ensures r.None? ==> forall j: nat :: !OccursAt(s, p, j)
    decreases |s|
  {
    if |s| < |p| then None
    else if s[..|p|] == p then Some(0)
    else
      var rest := IndexOf(s[1..], p);
      assert forall j: nat :: OccursAt(s[1..], p, j) <==> OccursAt(s, p, j + 1) by {
        forall j: nat ensures OccursAt(s[1..], p, j) <==> OccursAt(s, p, j + 1) {
          OccursShift(s, p, j);
        }
      }
      assert forall j: nat :: OccursAt(s, p, j) ==> j == 0 || OccursAt(s[1..], p, j - 1);
      match rest
      case None => None
      case Some(j) => Some(j + 1)
  }

  /** Ordinal `String.Contains`. */
  predicate Contains(s: string, p: string) {
    IndexOf(s, p).Some?
  }

  lemma ContainsAt(s: string, p: string, i: nat)
    requires OccursAt(s, p, i)
    ensures Contains(s, p)
  {
  }

  // ---------------------------------------------------------------------
  // Case-insensitive comparison (OrdinalIgnoreCase, ASCII letters only)
  // ---------------------------------------------------------------------

  function ToLowerAscii(c: char): char {
    if 'A' <= c <= 'Z' then (c as int + 32) as char else c
  }

  function Lower(s: string): (r: string)
    ensures |r| == |s|
    ensures forall i :: 0 <= i < |s| ==> r[i] == ToLowerAscii(s[i])
  {
    seq(|s|, i requires 0 <= i < |s| => ToLowerAscii(s[i]))
  }

  /** `s.Contains(p, StringComparison.OrdinalIgnoreCase)`. */
  predicate ContainsIgnoreCase(s: string, p: string)
    ensures ContainsIgnoreCase(s, p) <==> exists i: nat :: OccursAt(Lower(s), Lower(p), i)
  {
    Contains(Lower(s), Lower(p))
  }

  /** An exact occurrence is also a case-insensitive one, and so is one that
      differs only in the case of ASCII letters. */
  lemma ContainsIgnoreCaseAt(s: string, p: string, q: string, i: nat)
    requires OccursAt(s, q, i)
    requires Lower(q) == Lower(p)
    ensures ContainsIgnoreCase(s, p)
  {
    assert Lower(s)[i..i + |q|] == Lower(q);
    ContainsAt(Lower(s), Lower(p), i);
  }

  // ---------------------------------------------------------------------
  // Replace
  // ---------------------------------------------------------------------

  /** Ordinal `String.Replace(p, v)`: scans left to right and substitutes
      every non-overlapping occurrence of `p`; replaced text is not scanned
      again. .NET's `Replace` throws on an empty `p`; every caller passes a
      non-empty placeholder. */
  function Replace(s: string, p: string, v: string): (r: string)
    requires |p| > 0
    ensures IndexOf(s, p).None? ==> r == s
    ensures IndexOf(s, p).Some? ==>
      var i := IndexOf(s, p).value;
      |r| >= i + |v| && r[..i] == s[..i] && r[i..i + |v|] == v
    decreases |s|
  {
    match IndexOf(s, p)
    case None => s
    case Some(i) => s[..i] + v + Replace(s[i + |p|..], p, v)
  }

  /** Replacing in text that does not contain the pattern changes nothing. */
  lemma ReplaceAbsent(s: string, p: string, v: string)
    requires |p| > 0
    requires !Contains(s, p)
    ensures Replace(s, p, v) == s
  {
  }

  /** Text that is exactly the pattern becomes the replacement. */
  lemma ReplaceWhole(p: string, v: string)
    requires |p| > 0
    ensures Replace(p, p, v) == v
  {
    assert OccursAt(p, p, 0);
    assert p[|p|..] == [];
    assert IndexOf([], p).None?;
  }

  /** Replacing a pattern by itself changes nothing. */
  lemma {:induction false} ReplaceSelf(s: string, p: string)
    requires |p| > 0
    ensures Replace(s, p, p) == s
    decreases |s|
  {
    match IndexOf(s, p)
    case None =>
    case Some(i) =>
      ReplaceSelf(s[i + |p|..], p);
      assert s == s[..i] + s[i..i + |p|] + s[i + |p|..];
  }

  /** Text without the pattern's first character holds no occurrence. */
  lemma NoOccurrence(s: string, p: string)
    requires |p| > 0 && p[0] !in s
    ensures IndexOf(s, p).None?
  {
  }

  /** In front of text free of the pattern's first character, the search
      moves on to what follows. */
  lemma {:induction false} IndexOfAfterFree(a: string, b: string, p: string, i: nat)
    requires |p| > 0 && p[0] !in a && IndexOf(b, p) == Some(i)
    ensures IndexOf(a + b, p) == Some(|a| + i)
    decreases |a|
  {
    if |a| == 0 {
      assert a + b == b && |a| + i == i;
    } else {
      var k := |a| - 1 + i;
      MissingFromTail(a, p[0]);
      IndexOfAfterFree(a[1..], b, p, i);
      IndexOfAfterFreeStep(a, b, p, k);
      assert k + 1 == |a| + i;
    }
  }

  /** One step of IndexOfAfterFree: a first character other than the
      pattern's first moves the answer on by one. */
  lemma IndexOfAfterFreeStep(a: string, b: string, p: string, k: nat)
    requires |a| > 0 && |p| > 0 && a[0] != p[0] && IndexOf(a[1..] + b, p) == Some(k)
    ensures IndexOf(a + b, p) == Some(k + 1)
  {
    var s := a + b;
    assert s[1..] == a[1..] + b;
    IndexOfSkip(s, p, k);
  }

  /** A character missing from a text is missing from its tail. */
  lemma MissingFromTail(a: string, c: char)
    requires |a| > 0 && c !in a
    ensures a[0] != c && c !in a[1..]
  {
    assert a == [a[0]] + a[1..];
  }

  /** A first character other than the pattern's first is skipped. */
  lemma IndexOfSkip(s: string, p: string, i: nat)
    requires |p| > 0 && |s| > 0 && s[0] != p[0] && IndexOf(s[1..], p) == Some(i)
    ensures IndexOf(s, p) == Some(i + 1)
  {
    if |s| >= |p| {
      assert s[..|p|][0] == s[0];
      assert s[..|p|] != p;
    }
  }

  /** Pieces separated by `p`, as `String.Join(p, xs)` builds them; the
      inverse of `Split` (JoinSplit) and the shape `Replace` rewrites
      (ReplaceEvery). */
  function JoinWith(xs: seq<string>, p: string): string
    requires |xs| >= 1
    decreases |xs|
  {
    if |xs| == 1 then xs[0] else xs[0] + p + JoinWith(xs[1..], p)
  }

  /** Every occurrence is replaced: pieces free of the pattern's first
      character, separated by the pattern, come out separated by the
      value. */
  lemma {:induction false} ReplaceEvery(xs: seq<string>, p: string, v: string)
    requires |p| > 0 && |xs| >= 1
    requires forall i :: 0 <= i < |xs| ==> p[0] !in xs[i]
    ensures Replace(JoinWith(xs, p), p, v) == JoinWith(xs, v)
    decreases |xs|
  {
    if |xs| == 1 {
      NoOccurrence(xs[0], p);
    } else {
      var x, rest := xs[0], JoinWith(xs[1..], p);
      var s := JoinWith(xs, p);
      assert s == x + (p + rest);
      assert IndexOf(p + rest, p) == Some(0) by {
        assert OccursAt(p + rest, p, 0);
      }
      IndexOfAfterFree(x, p + rest, p, 0);
      assert s[..|x|] == x;
      assert s[|x| + |p|..] == rest;
      ReplaceEvery(xs[1..], p, v);
    }
  }

  /** A character missing from every piece and from the separator is
      missing from their join. */
  lemma {:induction false} JoinWithWithout(xs: seq<string>, p: string, c: char)
    requires |xs| >= 1 && c !in p
    requires forall i :: 0 <= i < |xs| ==> c !in xs[i]
    ensures c !in JoinWith(xs, p)
    decreases |xs|
  {
    if |xs| > 1 {
      JoinWithWithout(xs[1..], p, c);
    }
  }

  // ---------------------------------------------------------------------
  // Split and RemoveEmptyEntries
  // ---------------------------------------------------------------------

  /** `s.Split(sep)`: the pieces between separators, empty ones included. */
  function Split(s: string, sep: char): (r: seq<string>)
    ensures |r| == multiset(s)[sep] + 1
    ensures sep !in s ==> r == [s]
    decreases |s|
  {
    if |s| == 0 then [""]
    else
      var s', c := s[..|s| - 1], s[|s| - 1];
      assert s == s' + [c];
      var init := Split(s', sep);
      if c == sep then init + [""]
      else init[..|init| - 1] + [init[|init| - 1] + [c]]
  }

  /** Appending a piece appends the separator and that piece. */
  lemma {:induction false} JoinWithSnoc(xs: seq<string>, y: string, p: string)
    requires |xs| >= 1
    ensures JoinWith(xs + [y], p) == JoinWith(xs, p) + p + y
    decreases |xs|
  {
    if |xs| == 1 {
      assert (xs + [y])[1..] == [y];
    } else {
      assert (xs + [y])[1..] == xs[1..] + [y];
      JoinWithSnoc(xs[1..], y, p);
    }
  }

  lemma {:induction false} JoinExtendLast(segs: seq<string>, sep: char, c: char)
    requires |segs| >= 1
    ensures JoinWith(segs[..|segs| - 1] + [segs[|segs| - 1] + [c]], [sep]) == JoinWith(segs, [sep]) + [c]
  {
    var n := |segs|;
    if n > 1 {
      var init, last := segs[..n - 1], segs[n - 1];
      assert segs == init + [last];
      JoinWithSnoc(init, last, [sep]);
      JoinWithSnoc(init, last + [c], [sep]);
    }
  }

  /** Joining the pieces of a split with the same separator
      (`String.Join`) gives back the original text. */
  lemma {:induction false} JoinSplit(s: string, sep: char)
    ensures JoinWith(Split(s, sep), [sep]) == s
    decreases |s|
  {
    if |s| > 0 {
      var s', c := s[..|s| - 1], s[|s| - 1];
      assert s == s' + [c];
      var init := Split(s', sep);
      JoinSplit(s', sep);
      SplitSnoc(s', c, sep);
      if c == sep {
        JoinSnocEmpty(init, sep);
      } else {
        JoinExtendLast(init, sep, c);
      }
    }
  }

  lemma JoinSnocEmpty(segs: seq<string>, sep: char)
    requires |segs| >= 1
    ensures JoinWith(segs + [""], [sep]) == JoinWith(segs, [sep]) + [sep]
  {
    JoinWithSnoc(segs, "", [sep]);
  }

  /** One more character: a separator opens an empty piece, any other
      character extends the last piece. */
  lemma SplitSnoc(s: string, c: char, sep: char)
    ensures var p := Split(s, sep);
      Split(s + [c], sep) == if c == sep then p + [""] else p[..|p| - 1] + [p[|p| - 1] + [c]]
  {
    assert (s + [c])[..|s|] == s;
  }

  /** A character other than the separator extends the last piece. */
  lemma SplitSnocExtend(x: string, c: char, sep: char, pre: seq<string>, last: string)
    requires c != sep && Split(x, sep) == pre + [last]
    ensures Split(x + [c], sep) == pre + [last + [c]]
  {
    SplitSnoc(x, c, sep);
    var q := pre + [last];
    assert q[..|q| - 1] == pre;
  }

  /** Appending separator-free text extends the last piece. */
  lemma {:induction false} SplitAppend(a: string, b: string, sep: char, pre: seq<string>, last: string)
    requires sep !in b
    requires Split(a, sep) == pre + [last]
    ensures Split(a + b, sep) == pre + [last + b]
    decreases |b|
  {
    if |b| == 0 {
      assert a + b == a;
      assert last + b == last;
    } else {
      var b', c := b[..|b| - 1], b[|b| - 1];
      assert b == b' + [c];
      assert sep !in b' && c != sep;
      SplitAppend(a, b', sep, pre, last);
      SplitAppendStep(a, b', c, sep, pre, last);
    }
  }

  lemma SplitAppendStep(a: string, b': string, c: char, sep: char, pre: seq<string>, last: string)
    requires c != sep
    requires Split(a + b', sep) == pre + [last + b']
    ensures Split(a + (b' + [c]), sep) == pre + [last + (b' + [c])]
  {
    SplitSnocExtend(a + b', c, sep, pre, last + b');
    assert (a + b') + [c] == a + (b' + [c]);
    assert (last + b') + [c] == last + (b' + [c]);
  }

  /** The pieces with the empty ones removed (`RemoveEmptyEntries`). */
  function NonEmpty(segs: seq<string>): (r: seq<string>)
    ensures |r| <= |segs|
    ensures forall i :: 0 <= i < |r| ==> r[i] != []
    decreases |segs|
  {
    if |segs| == 0 then []
    else if segs[|segs| - 1] == [] then NonEmpty(segs[..|segs| - 1])
    else NonEmpty(segs[..|segs| - 1]) + [segs[|segs| - 1]]
  }

  lemma NonEmptySnoc(segs: seq<string>, b: string)
    requires b != []
    ensures NonEmpty(segs + [b]) == NonEmpty(segs) + [b]
  {
    assert (segs + [b])[..|segs|] == segs;
  }

  /** The last piece of a text cut at `sep`, ignoring empty pieces
      (`s.Split(sep, RemoveEmptyEntries).Last()`); `None` stands for the
      exception `Last` throws when no piece is left. */
  function LastNonEmptySegment(s: string, sep: char): (r: Option<string>)
    ensures r.Some? ==> r.value != []
    ensures |s| == 0 ==> r.None?
    ensures |s| > 0 && sep !in s ==> r == Some(s)
  {
    var segs := NonEmpty(Split(s, sep));
    assert |s| > 0 && sep !in s ==> segs == [s] by {
      if |s| > 0 && sep !in s {
        NonEmptySnoc([], s);
        assert [] + [s] == [s];
      }
    }
    if |segs| == 0 then None else Some(segs[|segs| - 1])
  }

  /** Text ending in a separator, followed by separator-free text, is cut
      into the pieces of the first part and then that text. */
  lemma SplitAfterSeparator(a: string, b: string, sep: char)
    requires |a| > 0 && a[|a| - 1] == sep
    requires sep !in b
    ensures Split(a + b, sep) == Split(a[..|a| - 1], sep) + [b]
  {
    var a' := a[..|a| - 1];
    SplitSnoc(a', sep, sep);
    assert a' + [sep] == a;
    SplitAppend(a, b, sep, Split(a', sep), "");
    assert "" + b == b;
  }

  /** Text ending in a separator followed by a non-empty, separator-free
      tail has that tail as its last piece. */
  lemma LastSegmentOfTail(a: string, b: string, sep: char)
    requires |a| > 0 && a[|a| - 1] == sep
    requires |b| > 0 && sep !in b
    ensures LastNonEmptySegment(a + b, sep) == Some(b)
  {
    SplitAfterSeparator(a, b, sep);
    NonEmptySnoc(Split(a[..|a| - 1], sep), b);
  }

  // ---------------------------------------------------------------------
  // Decimal integers: int.TryParse and int.ToString (ASCII digits only)
  // ---------------------------------------------------------------------

  const IntMax: int := 0x7FFF_FFFF
  const IntMin: int := -0x8000_0000

  /** The range of C#'s 32-bit `int`. */
  type Int32 = x: int | IntMin <= x <= IntMax

  predicate IsDigit(c: char) {
    '0' <= c <= '9'
  }

  predicate AllDigits(s: string) {
    forall i :: 0 <= i < |s| ==> IsDigit(s[i])
  }

  function DigitValue(c: char): nat
    requires IsDigit(c)
  {
    c as int - '0' as int
  }

  /** The decimal value of a run of digits, most significant first. */
  function Value(ds: string): nat
    requires AllDigits(ds)
    decreases |ds|
  {
    if |ds| == 0 then 0
    else Value(ds[..|ds| - 1]) * 10 + DigitValue(ds[|ds| - 1])
  }

  /** Leading zeros do not change the value. */
  lemma {:induction false} ValueLeadingZero(ds: string)
    requires AllDigits(ds)
    ensures AllDigits("0" + ds) && Value("0" + ds) == Value(ds)
    decreases |ds|
  {
    var z := "0" + ds;
    if |ds| > 0 {
      var ds' := ds[..|ds| - 1];
      ValueLeadingZero(ds');
      assert z[..|z| - 1] == "0" + ds';
      assert z[|z| - 1] == ds[|ds| - 1];
    }
  }

  /** `int.TryParse` on a run of ASCII digits: the value when it fits in an
      `int`, and failure otherwise. */
  function TryParseInt(s: string): (r: Option<Int32>)
    ensures r.Some? <==> |s| > 0 && AllDigits(s) && Value(s) <= IntMax
    ensures r.Some? ==> r.value == Value(s) && r.value >= 0
  {
    if |s| > 0 && AllDigits(s) && Value(s) <= IntMax then Some(Value(s)) else None
  }

  function Digit(d: nat): (c: char)
    requires d < 10
    ensures IsDigit(c) && DigitValue(c) == d
  {
    ('0' as int + d) as char
  }

  /** The shortest decimal representation of a natural number: no leading
      zero except in "0" itself. */
  function Decimal(n: nat): (r: string)
    ensures |r| > 0 && AllDigits(r)
    ensures r[0] == '0' ==> n == 0 && r == "0"
    decreases n
  {
    if n < 10 then [Digit(n)] else Decimal(n / 10) + [Digit(n % 10)]
  }

  /** Reading back a rendered number gives the number. */
  lemma {:induction false} ValueDecimal(n: nat)
    ensures Value(Decimal(n)) == n
    decreases n
  {
    var r := Decimal(n);
    if n >= 10 {
      ValueDecimal(n / 10);
      assert r[..|r| - 1] == Decimal(n / 10);
    }
  }

  /** A digit run that does not start with a zero has a positive value. */
  lemma {:induction false} ValuePositive(ds: string)
    requires |ds| > 0 && AllDigits(ds) && ds[0] != '0'
    ensures Value(ds) > 0
    decreases |ds|
  {
    if |ds| > 1 {
      ValuePositive(ds[..|ds| - 1]);
    }
  }

  /** The rendering is the only digit run without a leading zero that has
      the number's value. */
  lemma {:induction false} DecimalUnique(ds: string)
    requires |ds| > 0 && AllDigits(ds) && (ds[0] != '0' || ds == "0")
    ensures ds == Decimal(Value(ds))
    decreases |ds|
  {
    var ds', c := ds[..|ds| - 1], ds[|ds| - 1];
    var n := Value(ds);
    if |ds| == 1 {
      assert Digit(DigitValue(c)) == c;
      assert ds == [c];
    } else {
      assert ds'[0] == ds[0];
      ValuePositive(ds');
      DecimalUnique(ds');
      assert n / 10 == Value(ds') && n % 10 == DigitValue(c);
      assert Digit(DigitValue(c)) == c;
      assert ds == ds' + [c];
    }
  }

  /** `n.ToString(CultureInfo.InvariantCulture)`: the digits without a
      leading zero, after a `-` for a negative number. */
  function IntToString(n: int): (r: string)
    ensures n >= 0 ==> AllDigits(r) && |r| > 0 && Value(r) == n && (r[0] == '0' ==> r == "0")
    ensures n < 0 ==> |r| > 1 && r[0] == '-' && AllDigits(r[1..]) && Value(r[1..]) == -n && r[1] != '0'
  {
    ValueDecimal(if n < 0 then -n else n);
    if n < 0 then
      var d := Decimal(-n);
      assert ("-" + d)[1..] == d;
      "-" + d
    else Decimal(n)
  }

  /** `int.TryParse` reads back what `ToString` writes for a non-negative
      `int`. */
  lemma TryParseIntToString(n: Int32)
    requires n >= 0
    ensures TryParseInt(IntToString(n)) == Some(n)
  {
    ValueDecimal(n);
  }
}
