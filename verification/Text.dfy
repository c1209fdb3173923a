/** The string operations the data pipeline relies on: splitting on the
    field separator ", " from the left and from the right, joining with it,
    and the decimal conversions between integers and text (Python's `int()`
    on a string and `str()` on an integer). */
module Text {
  import opened Wrappers

  /** The field separator of the data files (DATA_SEPARATOR). */
  const Sep: string := ", "

  /** `s` holds the separator at position `i`. */
  predicate SepAt(s: string, i: int) {
    0 <= i && i + 1 < |s| && s[i] == ',' && s[i + 1] == ' '
  }

  predicate HasSep(s: string) {
    exists i :: 0 <= i < |s| && SepAt(s, i)
  }

  predicate EndsWithSep(s: string) {
    |s| >= 2 && SepAt(s, |s| - 2)
  }

  /** `sep.join(pieces)`: the pieces with one separator between neighbours. */
  function Join(pieces: seq<string>): string {
    if |pieces| == 0 then "" else pieces[0] + Prefixed(pieces[1..])
  }

  /** Every piece preceded by the separator. */
  function Prefixed(pieces: seq<string>): string {
    if |pieces| == 0 then "" else Sep + pieces[0] + Prefixed(pieces[1..])
  }

  /** `s.split(sep)`: cuts at every occurrence of the separator, scanning
      from the left. */
  function Split(s: string): (r: seq<string>)
    ensures |r| >= 1
    ensures Join(r) == s
    ensures forall i :: 0 <= i < |r| ==> !HasSep(r[i])
    decreases |s|
  {
    if |s| < 2 then
      assert !HasSep(s) by {
        forall i ensures !SepAt(s, i) { }
      }
      [s]
    else if SepAt(s, 0) then
      [""] + Split(s[2..])
    else
      var rest := Split(s[1..]);
      var first := [s[0]] + rest[0];
      JoinStartsWithFirst(rest);
      PrependNoSep(s, rest[0]);
      [first] + rest[1..]
  }

  /** A separator-free piece at the front of the rest of `s` stays
      separator-free with the first character of `s` put back, when `s` does
      not open with the separator. */
  lemma PrependNoSep(s: string, piece: string)
    requires |s| >= 2 && !SepAt(s, 0) && !HasSep(piece) && piece <= s[1..]
    ensures !HasSep([s[0]] + piece)
  {
    var first := [s[0]] + piece;
    forall i | 0 <= i < |first| ensures !SepAt(first, i) {
      if i > 0 {
        assert !SepAt(piece, i - 1);
      }
    }
  }

  /** Join of a non-empty list starts with its first piece. */
  lemma JoinStartsWithFirst(pieces: seq<string>)
    requires |pieces| > 0
    ensures pieces[0] <= Join(pieces)
  {
  }

  /** The position of the last occurrence of the separator, which is where
      `s.rsplit(sep, 1)` cuts. */
  function LastSep(s: string): (r: Option<nat>)
    ensures r.None? <==> !HasSep(s)
    ensures r.Some? ==> SepAt(s, r.value)
    ensures r.Some? ==> forall j :: r.value < j ==> !SepAt(s, j)
    decreases |s|
  {
    if |s| < 2 then
      assert forall i :: !SepAt(s, i);
      None
    else if SepAt(s, |s| - 2) then
      Some(|s| - 2)
    else
      var p := s[..|s| - 1];
      assert forall j :: SepAt(s, j) ==> SepAt(p, j);
      assert forall j :: SepAt(p, j) ==> SepAt(s, j);
      LastSep(p)
  }

  /** A separator-free piece followed by the separator is exactly the first
      piece of the split. */
  lemma {:induction false} SplitAfterPiece(x: string, t: string)
    requires !HasSep(x)
    ensures Split(x + Sep + t) == [x] + Split(t)
    decreases |x|
  {
    var s := x + Sep + t;
    if |x| == 0 {
      assert s == Sep + t;
      assert SepAt(s, 0);
      assert s[2..] == t;
    } else {
      var x' := x[1..];
      assert !HasSep(x') by {
        forall i | 0 <= i < |x'| ensures !SepAt(x', i) {
          assert !SepAt(x, i + 1);
        }
      }
      assert !SepAt(s, 0) by {
        if |x| >= 2 {
          assert !SepAt(x, 0);
        } else {
          assert s[1] == ',';
        }
      }
      assert s[1..] == x' + Sep + t;
      SplitAfterPiece(x', t);
      assert [x[0]] + x' == x;
    }
  }

  /** A separator-free text splits into itself. */
  lemma {:induction false} SplitNoSep(s: string)
    requires !HasSep(s)
    ensures Split(s) == [s]
    decreases |s|
  {
    if |s| >= 2 {
      var s' := s[1..];
      assert !HasSep(s') by {
        forall i | 0 <= i < |s'| ensures !SepAt(s', i) {
          assert !SepAt(s, i + 1);
        }
      }
      SplitNoSep(s');
      assert [s[0]] + s' == s;
    }
  }

  /** Splitting undoes joining whenever no piece holds the separator: the
      split is the unique separator-free decomposition of a text. */
  lemma {:induction false} SplitJoin(pieces: seq<string>)
    requires |pieces| >= 1
    requires forall i :: 0 <= i < |pieces| ==> !HasSep(pieces[i])
    ensures Split(Join(pieces)) == pieces
    decreases |pieces|
  {
    if |pieces| == 1 {
      assert Join(pieces) == pieces[0];
      SplitNoSep(pieces[0]);
    } else {
      var rest := pieces[1..];
      JoinCons(pieces[0], rest);
      SplitAfterPiece(pieces[0], Join(rest));
      SplitJoin(rest);
      assert [pieces[0]] + rest == pieces;
    }
  }

  lemma JoinCons(x: string, rest: seq<string>)
    requires |rest| >= 1
    ensures Join([x] + rest) == x + Sep + Join(rest)
  {
    assert ([x] + rest)[1..] == rest;
    assert Prefixed(rest) == Sep + rest[0] + Prefixed(rest[1..]);
  }

  /** Joining two non-empty lists puts one separator between their joins. */
  lemma {:induction false} JoinAppend(xs: seq<string>, ys: seq<string>)
    requires |xs| >= 1 && |ys| >= 1
    ensures Join(xs + ys) == Join(xs) + Sep + Join(ys)
    decreases |xs|
  {
    if |xs| == 1 {
      assert xs + ys == [xs[0]] + ys;
      JoinCons(xs[0], ys);
    } else {
      var xs' := xs[1..];
      assert xs + ys == [xs[0]] + (xs' + ys);
      JoinCons(xs[0], xs' + ys);
      JoinAppend(xs', ys);
      assert xs == [xs[0]] + xs';
      JoinCons(xs[0], xs');
    }
  }

  /** A separator between two texts is a cut of the split, wherever the
      texts' own separators are. */
  lemma SplitAppend(a: string, b: string)
    ensures Split(a + Sep + b) == Split(a) + Split(b)
  {
    var xs := Split(a);
    var ys := Split(b);
    JoinAppend(xs, ys);
    SplitJoin(xs + ys);
  }

  // ---------------------------------------------------------------------
  // Decimal conversions

  predicate IsDigit(c: char) {
    '0' <= c <= '9'
  }

  predicate AllDigits(s: string) {
    forall i :: 0 <= i < |s| ==> IsDigit(s[i])
  }

  function DigitChar(d: nat): (c: char)
    requires d < 10
    ensures IsDigit(c)
  {
    "0123456789"[d]
  }

  function DigitValue(c: char): nat
    requires IsDigit(c)
  {
    (c as int) - ('0' as int)
  }

  /** The value of a string of decimal digits, most significant first. */
  function DigitsValue(s: string): nat
    requires AllDigits(s)
    decreases |s|
  {
    if |s| == 0 then 0 else DigitsValue(s[..|s| - 1]) * 10 + DigitValue(s[|s| - 1])
  }

  /** `int(s)` restricted to a plain signed decimal: an optional '-' and one or
      more digits (leading zeros allowed, as in Python). */
  function ParseInt(s: string): (r: Option<int>)
    ensures r.Some? <==> (|s| >= 1 && AllDigits(s)) || (|s| >= 2 && s[0] == '-' && AllDigits(s[1..]))
    ensures |s| >= 1 && AllDigits(s) ==> r == Some(DigitsValue(s))
    ensures |s| >= 2 && s[0] == '-' && AllDigits(s[1..]) ==> r == Some(-(DigitsValue(s[1..]) as int))
    ensures r.Some? ==> |s| >= 1 && ',' !in s
  {
    if |s| >= 2 && s[0] == '-' && AllDigits(s[1..]) then
      assert forall i :: 0 <= i < |s| ==> s[i] == '-' || IsDigit(s[i]) by {
        forall i | 1 <= i < |s| ensures IsDigit(s[i]) {
          assert s[1..][i - 1] == s[i];
        }
      }
      var magnitude: int := DigitsValue(s[1..]);
      Some(-magnitude)
    else if |s| >= 1 && AllDigits(s) then
      Some(DigitsValue(s))
    else
      None
  }

  /** `str(n)` for n >= 0: decimal digits without leading zeros. */
  function NatToString(n: nat): (r: string)
    ensures |r| >= 1 && AllDigits(r)
    ensures DigitsValue(r) == n
    ensures |r| == 1 || r[0] != '0'
    decreases n
  {
    if n < 10 then
      [DigitChar(n)]
    else
      var prefix := NatToString(n / 10);
      var r := prefix + [DigitChar(n % 10)];
      assert r[..|r| - 1] == prefix;
      r
  }

  /** `str(n)`: a '-' before the digits of a negative number. */
  function IntToString(n: int): string {
    if n < 0 then "-" + NatToString(-n) else NatToString(n)
  }

  /** Reading back what `str` wrote gives the number again. */
  lemma ParseIntToString(n: int)
    ensures ParseInt(IntToString(n)) == Some(n)
    ensures |IntToString(n)| >= 1 && ',' !in IntToString(n)
  {
    var s := IntToString(n);
    if n < 0 {
      assert s[1..] == NatToString(-n);
    }
    assert ParseInt(s).Some?;
  }
}
