/**
 * Node identifiers: `str(counter).zfill(4)`, the decimal form of the 1-based
 * position left-padded with `0` to at least four characters.
 */
module NodeIds {

  predicate IsDigit(c: char) {
    '0' <= c <= '9'
  }

  function Digit(d: nat): (c: char)
    requires d < 10
    ensures IsDigit(c)
  {
    (('0' as int) + d) as char
  }

  function DigitValue(c: char): nat {
    if IsDigit(c) then (c as int) - ('0' as int) else 0
  }

  /** `str(n)` for a non-negative integer. */
  function Decimal(n: nat): string {
    if n < 10 then [Digit(n)] else Decimal(n / 10) + [Digit(n % 10)]
  }

  /** `str(n)` is a non-empty run of digits without a leading zero (unless `n` is 0). */
  lemma {:induction false} DecimalDigits(n: nat)
    ensures 1 <= |Decimal(n)| && AllDigits(Decimal(n))
    ensures n > 0 ==> Decimal(n)[0] != '0'
  {
    if n >= 10 {
      DecimalDigits(n / 10);
    }
  }

  /** `s.zfill(width)` for an unsigned `s`: prepend `0` until `width` is reached. */
  function ZFill(s: string, width: nat): string
    decreases width - |s|
  {
    if |s| >= width then s else ZFill(['0'] + s, width)
  }

  /** `zfill` keeps `s` as a suffix, adds only zeros, and reaches `width`. */
  lemma {:induction false} ZFillShape(s: string, width: nat)
    ensures |ZFill(s, width)| == if |s| >= width then |s| else width
    ensures ZFill(s, width)[|ZFill(s, width)| - |s|..] == s
    ensures forall k :: 0 <= k < |ZFill(s, width)| - |s| ==> ZFill(s, width)[k] == '0'
    decreases width - |s|
  {
    if |s| < width {
      ZFillShape(['0'] + s, width);
      var r := ZFill(s, width);
      assert r[|r| - |s| - 1..] == ['0'] + s;
      assert r[|r| - |s|..] == (['0'] + s)[1..];
    }
  }

  /** The id of the node at 1-based position `k`. */
  function NodeId(k: nat): string {
    ZFill(Decimal(k), 4)
  }

  /** `int(s)` for a string of digits. */
  function Value(s: string): nat {
    if s == [] then 0 else Value(s[..|s| - 1]) * 10 + DigitValue(s[|s| - 1])
  }

  /** `int(str(n)) == n`. */
  lemma {:induction false} DecimalValue(n: nat)
    ensures Value(Decimal(n)) == n
  {
    if n >= 10 {
      DecimalValue(n / 10);
      var s := Decimal(n / 10) + [Digit(n % 10)];
      assert s[..|s| - 1] == Decimal(n / 10);
    }
  }

  /** Leading zeros do not change the value. */
  lemma {:induction false} ZerosValue(z: string, s: string)
    requires forall k :: 0 <= k < |z| ==> z[k] == '0'
    ensures Value(z + s) == Value(s)
    decreases |s|, |z|
  {
    if s == [] {
      assert z + s == z;
      if z != [] {
        ZerosValue(z[..|z| - 1], []);
        assert z[..|z| - 1] + [] == z[..|z| - 1];
      }
    } else {
      ZerosValue(z, s[..|s| - 1]);
      assert (z + s)[..|z + s| - 1] == z + s[..|s| - 1];
    }
  }

  /** Reading an id back gives its position: ids of distinct positions differ. */
  lemma NodeIdValue(k: nat)
    ensures Value(NodeId(k)) == k
  {
    var d := Decimal(k);
    var id := NodeId(k);
    DecimalValue(k);
    ZFillShape(d, 4);
    assert id == id[..|id| - |d|] + d;
    ZerosValue(id[..|id| - |d|], d);
  }

  /** Distinct positions get distinct ids. */
  lemma NodeIdInjective(a: nat, b: nat)
    requires NodeId(a) == NodeId(b)
    ensures a == b
  {
    NodeIdValue(a);
    NodeIdValue(b);
  }

  /** `str(n)` is short exactly when `n` is small. */
  lemma {:induction false} DecimalLength(n: nat, w: nat)
    requires n > 0 || w > 0
    ensures |Decimal(n)| <= w <==> n < Pow10(w)
  {
    if w > 0 {
      assert Pow10(w) >= 10;
      if n >= 10 {
        DecimalLength(n / 10, w - 1);
        assert n < Pow10(w) <==> n / 10 < Pow10(w - 1);
      }
    }
  }


  function Pow10(w: nat): (p: nat)
    ensures p >= 1
  {
    if w == 0 then 1 else 10 * Pow10(w - 1)
  }

  /**
   * Ids have exactly four characters up to position 9999 and more from
   * 10000 on, where the padding no longer applies.
   */
  lemma NodeIdWidth(k: nat)
    ensures k < 10000 ==> |NodeId(k)| == 4
    ensures k >= 10000 ==> |NodeId(k)| >= 5 && NodeId(k) == Decimal(k)
  {
    DecimalLength(k, 4);
    ZFillShape(Decimal(k), 4);
    assert Pow10(4) == 10000;
  }

  predicate AllDigits(s: string) {
    forall k :: 0 <= k < |s| ==> IsDigit(s[k])
  }

  /** Python's ordering of strings, character by character from the front. */
  predicate LexLess(a: string, b: string) {
    if a == [] then b != []
    else if b == [] then false
    else if a[0] != b[0] then a[0] < b[0]
    else LexLess(a[1..], b[1..])
  }

  lemma Regroup(d0: int, p: int, v: int, last: int)
    ensures (d0 * p + v) * 10 + last == d0 * (10 * p) + (v * 10 + last)
  {
  }

  lemma {:induction false} ValueFront(s: string)
    requires s != []
    ensures Value(s) == DigitValue(s[0]) * Pow10(|s| - 1) + Value(s[1..])
  {
    if |s| > 1 {
      var init, rest := s[..|s| - 1], s[1..];
      ValueFront(init);
      assert init[1..] == rest[..|rest| - 1];
      assert init[0] == s[0] && rest[|rest| - 1] == s[|s| - 1];
      var d0, p, v, last := DigitValue(s[0]), Pow10(|s| - 2), Value(init[1..]), DigitValue(s[|s| - 1]);
      assert Value(s) == Value(init) * 10 + last;
      assert Value(init) == d0 * p + v;
      assert Value(rest) == v * 10 + last;
      assert Pow10(|s| - 1) == 10 * p;
      Regroup(d0, p, v, last);
    } else {
      assert s[..0] == [] && s[1..] == [];
    }
  }

  lemma {:induction false} ValueBound(s: string)
    ensures Value(s) < Pow10(|s|)
  {
    if s != [] {
      ValueBound(s[..|s| - 1]);
    }
  }

  /** A smaller leading digit outweighs whatever follows it. */
  lemma LeadingDigitDominates(da: nat, db: nat, p: nat, ra: nat, rb: nat)
    requires da < db && ra < p
    ensures da * p + ra < db * p + rb
  {
    calc {
      da * p + ra;
    <
      da * p + p;
    ==
      (da + 1) * p;
    <=  { assert da + 1 <= db; }
      db * p;
    }
  }

  /** On digit strings of one length, string order is numeric order. */
  lemma {:induction false} LexIsNumeric(a: string, b: string)
    requires |a| == |b| && AllDigits(a) && AllDigits(b)
    ensures LexLess(a, b) <==> Value(a) < Value(b)
  {
    if a != [] {
      ValueFront(a);
      ValueFront(b);
      var p := Pow10(|a| - 1);
      ValueBound(a[1..]);
      ValueBound(b[1..]);
      var da, db := DigitValue(a[0]), DigitValue(b[0]);
      if a[0] == b[0] {
        LexIsNumeric(a[1..], b[1..]);
      } else if a[0] < b[0] {
        LeadingDigitDominates(da, db, p, Value(a[1..]), Value(b[1..]));
      } else {
        LeadingDigitDominates(db, da, p, Value(b[1..]), Value(a[1..]));
      }
    }
  }

  lemma NodeIdDigits(k: nat)
    ensures AllDigits(NodeId(k))
  {
    var d := Decimal(k);
    var id := NodeId(k);
    DecimalDigits(k);
    ZFillShape(d, 4);
    forall j | 0 <= j < |id|
      ensures IsDigit(id[j])
    {
      if j >= |id| - |d| {
        assert id[j] == id[|id| - |d|..][j - (|id| - |d|)];
      }
    }
  }

  /**
   * Up to position 9999 the string order of ids follows input order.
   */
  lemma NodeIdsOrdered(a: nat, b: nat)
    requires a < b < 10000
    ensures LexLess(NodeId(a), NodeId(b))
  {
    NodeIdWidth(a);
    NodeIdWidth(b);
    NodeIdDigits(a);
    NodeIdDigits(b);
    NodeIdValue(a);
    NodeIdValue(b);
    LexIsNumeric(NodeId(a), NodeId(b));
  }

  /** From 10000 on, the string order of ids no longer follows input order. */
  lemma NodeIdOrderBreaks()
    ensures NodeId(9999) == "9999" && NodeId(10000) == "10000"
    ensures LexLess(NodeId(10000), NodeId(9999))
  {
    assert Decimal(9) == "9";
    assert Decimal(99) == "99";
    assert Decimal(999) == "999";
    assert Decimal(9999) == "9999";
    assert Decimal(1) == "1";
    assert Decimal(10) == "10";
    assert Decimal(100) == "100";
    assert Decimal(1000) == "1000";
    assert Decimal(10000) == "10000";
    assert ZFill("9999", 4) == "9999";
    assert ZFill("10000", 4) == "10000";
  }
}
