/** The textual symbol key `${r}_${g}_${b}_${a}` the coders use as Map and
    object key, its parsing back with `split('_').map(Number)`, and the
    code-unit order in which `Array.prototype.sort` puts such keys. */
module Keys {
  import opened Image

  predicate IsDigit(c: char)
  {
    '0' <= c <= '9'
  }

  predicate AllDigits(s: string)
  {
    forall i :: 0 <= i < |s| ==> IsDigit(s[i])
  }

  function Digit(d: nat): (c: char)
    requires d < 10
    ensures IsDigit(c)
  {
    (48 + d) as char
  }

  /** The decimal text of a natural number, without leading zeros. */
  function Decimal(n: nat): (s: string)
    ensures 1 <= |s| && AllDigits(s)
    decreases n
  {
    if n < 10 then [Digit(n)] else Decimal(n / 10) + [Digit(n % 10)]
  }

  /** `Number(s)` for a string of decimal digits. */
  function Number(s: string): nat
    requires AllDigits(s)
  {
    if s == [] then 0 else 10 * Number(s[..|s| - 1]) + (s[|s| - 1] as int - 48)
  }

  /** The key of a pixel: the four channels in decimal, joined by '_'. */
  function KeyOf(p: Pixel): string
  {
    Decimal(p.r) + "_" + Decimal(p.g) + "_" + Decimal(p.b) + "_" + Decimal(p.a)
  }

  /** `s.split(sep)`: the pieces between separators; the empty string gives [""]. */
  function Split(s: string, sep: char): (parts: seq<string>)
    ensures |parts| >= 1
  {
    if s == [] then [""]
    else
      var rest := Split(s[1..], sep);
      if s[0] == sep then [""] + rest else [[s[0]] + rest[0]] + rest[1..]
  }

  /** `key.split('_').map(Number)` for a key whose pieces are all digit strings. */
  function ParseKey(key: string): (vs: seq<nat>)
    requires forall i :: 0 <= i < |Split(key, '_')| ==> AllDigits(Split(key, '_')[i])
    ensures |vs| == |Split(key, '_')|
  {
    var parts := Split(key, '_');
    seq(|parts|, i requires 0 <= i < |parts| => Number(parts[i]))
  }

  /** `a < b` on strings, character by character, a proper prefix first.
      JavaScript compares UTF-16 code units and a Dafny string holds Unicode
      scalar values; the two agree on ASCII text, which every pixel key is,
      so on keys this is the order of `sort()` with no comparator. */
  predicate Below(a: string, b: string)
  {
    if a == [] then b != []
    else b != [] && (a[0] < b[0] || (a[0] == b[0] && Below(a[1..], b[1..])))
  }

  lemma {:induction false} NumberOfDecimal(n: nat)
    ensures Number(Decimal(n)) == n
    decreases n
  {
    if n >= 10 {
      var s := Decimal(n);
      assert s[..|s| - 1] == Decimal(n / 10);
      NumberOfDecimal(n / 10);
    }
  }

  /** A piece with no separator in it splits into itself. */
  lemma {:induction false} SplitNoSeparator(s: string, sep: char)
    requires forall i :: 0 <= i < |s| ==> s[i] != sep
    ensures Split(s, sep) == [s]
  {
    if s != [] {
      SplitNoSeparator(s[1..], sep);
      assert [s[0]] + s[1..] == s;
    }
  }

  /** Splitting stops at the first separator. */
  lemma {:induction false} SplitAtSeparator(s: string, sep: char, rest: string)
    requires forall i :: 0 <= i < |s| ==> s[i] != sep
    ensures Split(s + [sep] + rest, sep) == [s] + Split(rest, sep)
  {
    if s == [] {
      assert [sep] + rest == s + [sep] + rest;
      assert (s + [sep] + rest)[1..] == rest;
    } else {
      var t := s + [sep] + rest;
      assert t[1..] == s[1..] + [sep] + rest;
      SplitAtSeparator(s[1..], sep, rest);
      assert [s[0]] + s[1..] == s;
    }
  }

  lemma SplitKey(p: Pixel)
    ensures Split(KeyOf(p), '_') == [Decimal(p.r), Decimal(p.g), Decimal(p.b), Decimal(p.a)]
  {
    var r, g, b, a := Decimal(p.r), Decimal(p.g), Decimal(p.b), Decimal(p.a);
    assert KeyOf(p) == r + ['_'] + (g + ['_'] + (b + ['_'] + a));
    SplitAtSeparator(r, '_', g + ['_'] + (b + ['_'] + a));
    SplitAtSeparator(g, '_', b + ['_'] + a);
    SplitAtSeparator(b, '_', a);
    SplitNoSeparator(a, '_');
  }

  /** Parsing a key gives back the pixel's four channels: the textual key
      loses nothing, and decoding a leaf's key restores its pixel. */
  lemma ParseKeyOf(p: Pixel)
    ensures forall i :: 0 <= i < |Split(KeyOf(p), '_')| ==> AllDigits(Split(KeyOf(p), '_')[i])
    ensures ParseKey(KeyOf(p)) == [p.r as nat, p.g as nat, p.b as nat, p.a as nat]
  {
    SplitKey(p);
    NumberOfDecimal(p.r);
    NumberOfDecimal(p.g);
    NumberOfDecimal(p.b);
    NumberOfDecimal(p.a);
  }

  /** Distinct pixels have distinct keys, so a Map keyed by the text of a
      pixel has one entry per distinct pixel. */
  lemma KeyOfInjective(p: Pixel, q: Pixel)
    ensures KeyOf(p) == KeyOf(q) ==> p == q
  {
    ParseKeyOf(p);
    ParseKeyOf(q);
  }

  lemma {:induction false} BelowIrreflexive(a: string)
    ensures !Below(a, a)
  {
    if a != [] {
      BelowIrreflexive(a[1..]);
    }
  }

  lemma {:induction false} BelowTransitive(a: string, b: string, c: string)
    requires Below(a, b) && Below(b, c)
    ensures Below(a, c)
  {
    if a != [] && a[0] == b[0] && b[0] == c[0] {
      BelowTransitive(a[1..], b[1..], c[1..]);
    }
  }

  lemma {:induction false} BelowTotal(a: string, b: string)
    ensures a == b || Below(a, b) || Below(b, a)
  {
    if a != [] && b != [] && a[0] == b[0] {
      BelowTotal(a[1..], b[1..]);
      if a[1..] == b[1..] {
        assert a == [a[0]] + a[1..] && b == [b[0]] + b[1..];
      }
    }
  }

  /** The key order is textual, not numeric: the pixel with red 10 sorts
      before the pixel with red 9, because '1' comes before '9'. */
  lemma KeyOrderIsTextual()
    ensures Below(KeyOf(Pixel(10, 0, 0, 0)), KeyOf(Pixel(9, 0, 0, 0)))
  {
    assert KeyOf(Pixel(10, 0, 0, 0))[0] == '1';
    assert KeyOf(Pixel(9, 0, 0, 0))[0] == '9';
  }
}
