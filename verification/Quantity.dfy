/** `pkg/config/quantity.go`: sizes such as 20Gi, in 64-bit arithmetic. */
module Quantity {
  import opened Prelude
  import opened Text

  datatype Suffix = Suffix(text: string, multiplier: nat)

  const SUFFIXES: seq<Suffix> := [
    Suffix("Ti", 0x100_0000_0000),
    Suffix("Gi", 0x4000_0000),
    Suffix("Mi", 0x10_0000),
    Suffix("Ki", 0x400),
    Suffix("T", 1_000_000_000_000),
    Suffix("G", 1_000_000_000),
    Suffix("M", 1_000_000),
    Suffix("K", 1_000)
  ]

  /** A uint64 product: the mathematical one modulo 2^64. */
  function Wrap64(x: nat): (r: nat)
    ensures r < TWO_64 && (r == x <==> x < TWO_64)
  {
    x % TWO_64
  }

  /** The number in front of a suffix, times the multiplier, as a uint64 product. */
  function Scaled(digits: string, multiplier: nat): Option<nat> {
    match ParseUint64(digits)
    case Parsed(n) => if n == 0 then None else Some(Wrap64(n * multiplier))
    case _ => None
  }

  /** The first suffix of the table that matches decides. */
  function ParseWith(table: seq<Suffix>, t: string): Option<nat> {
    if table == [] then Scaled(t, 1)
    else if HasSuffix(t, table[0].text) then Scaled(t[..|t| - |table[0].text|], table[0].multiplier)
    else ParseWith(table[1..], t)
  }

  function Bytes(s: string): Option<nat> {
    var t := TrimSpace(s);
    if t == "" then None else ParseWith(SUFFIXES, t)
  }

  method ParseQuantityBytes(s: string) returns (r: Option<nat>)
    ensures r == Bytes(s)
  {
    var t := TrimSpace(s);
    if t == "" {
      return None;
    }
    for i := 0 to |SUFFIXES|
      invariant ParseWith(SUFFIXES, t) == ParseWith(SUFFIXES[i..], t)
    {
      var item := SUFFIXES[i];
      assert SUFFIXES[i..][0] == item && SUFFIXES[i..][1..] == SUFFIXES[i + 1..];
      if !HasSuffix(t, item.text) {
        continue;
      }
      var scaled := ParseUint64(t[..|t| - |item.text|]);
      if !scaled.Parsed? || scaled.n == 0 {
        return None;
      }
      return Some(Wrap64(scaled.n * item.multiplier));
    }
    assert SUFFIXES[|SUFFIXES|..] == [];
    var val := ParseUint64(t);
    if !val.Parsed? || val.n == 0 {
      return None;
    }
    ParseUintExact(t, val.n);
    r := Some(val.n);
  }

  // ----- At most one suffix matches -----

  lemma SuffixShapes(i: nat)
    requires i < |SUFFIXES|
    ensures i < 4 ==> |SUFFIXES[i].text| == 2 && SUFFIXES[i].text[1] == 'i' && SUFFIXES[i].text[0] == ['T', 'G', 'M', 'K'][i]
    ensures i >= 4 ==> |SUFFIXES[i].text| == 1 && SUFFIXES[i].text[0] == ['T', 'G', 'M', 'K'][i - 4]
    ensures 0 < SUFFIXES[i].multiplier < TWO_64
    ensures forall k :: 0 <= k < |SUFFIXES[i].text| ==> !IsDigit(SUFFIXES[i].text[k]) && !IsSpace(SUFFIXES[i].text[k])
  {
  }

  lemma AtMostOneSuffix(t: string, i: nat, j: nat)
    requires i < |SUFFIXES| && j < |SUFFIXES|
    requires HasSuffix(t, SUFFIXES[i].text) && HasSuffix(t, SUFFIXES[j].text)
    ensures i == j
  {
    SuffixShapes(i);
    SuffixShapes(j);
    var a, b := SUFFIXES[i].text, SUFFIXES[j].text;
    assert a[|a| - 1] == t[|t| - |a|..][|a| - 1] && b[|b| - 1] == t[|t| - |b|..][|b| - 1];
    assert a[0] == t[|t| - |a|] && b[0] == t[|t| - |b|];
  }

  lemma {:induction false} ParseWithFinds(table: seq<Suffix>, t: string, e: Suffix)
    requires forall x, y :: x in table && y in table && HasSuffix(t, x.text) && HasSuffix(t, y.text) ==> x == y
    ensures e in table && HasSuffix(t, e.text) ==> ParseWith(table, t) == Scaled(t[..|t| - |e.text|], e.multiplier)
    ensures (forall x :: x in table ==> !HasSuffix(t, x.text)) ==> ParseWith(table, t) == Scaled(t, 1)
    decreases |table|
  {
    if table != [] {
      assert table == [table[0]] + table[1..];
      assert forall x :: x in table[1..] ==> x in table;
      ParseWithFinds(table[1..], t, e);
    }
  }

  lemma OneMatch(t: string)
    ensures forall x, y :: x in SUFFIXES && y in SUFFIXES && HasSuffix(t, x.text) && HasSuffix(t, y.text) ==> x == y
  {
    forall x, y | x in SUFFIXES && y in SUFFIXES && HasSuffix(t, x.text) && HasSuffix(t, y.text)
      ensures x == y
    {
      var i :| 0 <= i < |SUFFIXES| && SUFFIXES[i] == x;
      var j :| 0 <= j < |SUFFIXES| && SUFFIXES[j] == y;
      AtMostOneSuffix(t, i, j);
    }
  }

  /** The order of the table is irrelevant: any rearrangement of its rows, with or without
      repetitions, parses every text the same way. */
  lemma TableOrderIrrelevant(table: seq<Suffix>, t: string)
    requires forall e :: e in table <==> e in SUFFIXES
    ensures ParseWith(table, t) == ParseWith(SUFFIXES, t)
  {
    OneMatch(t);
    if e :| e in SUFFIXES && HasSuffix(t, e.text) {
      ParseWithFinds(table, t, e);
      ParseWithFinds(SUFFIXES, t, e);
    } else {
      ParseWithFinds(table, t, SUFFIXES[0]);
      ParseWithFinds(SUFFIXES, t, SUFFIXES[0]);
    }
  }

  // ----- What is accepted, and what it means -----

  /** t is a decimal number d followed by nothing (multiplier 1) or by a suffix of the table. */
  ghost predicate Reads(t: string, d: string, m: nat) {
    && d != [] && AllDigits(d)
    && ((t == d && m == 1) || exists i :: 0 <= i < |SUFFIXES| && t == d + SUFFIXES[i].text && m == SUFFIXES[i].multiplier)
  }

  lemma DigitsHaveNoSuffix(d: string, i: nat)
    requires d != [] && AllDigits(d) && i < |SUFFIXES|
    ensures !HasSuffix(d, SUFFIXES[i].text)
  {
    SuffixShapes(i);
    var a := SUFFIXES[i].text;
    assert |a| <= |d| ==> d[|d| - |a|..][|a| - 1] == d[|d| - 1];
    assert IsDigit(d[|d| - 1]) && !IsDigit(a[|a| - 1]);
  }

  lemma ScaledExact(d: string, m: nat, x: nat)
    ensures Scaled(d, m) == Some(x) <==>
      d != [] && AllDigits(d) && 0 < DecimalValue(d) < TWO_64 && x == Wrap64(DecimalValue(d) * m)
  {
    if d != [] && AllDigits(d) {
      ParseUintExact(d, DecimalValue(d));
    }
    if ParseUint64(d).Parsed? {
      ParseUintExact(d, ParseUint64(d).n);
    }
  }

  /** The row that decided, or the length of the table when none matched. */
  lemma {:induction false} DecidedBy(table: seq<Suffix>, t: string) returns (k: nat)
    ensures k <= |table|
    ensures k < |table| ==>
      && HasSuffix(t, table[k].text)
      && ParseWith(table, t) == Scaled(t[..|t| - |table[k].text|], table[k].multiplier)
    ensures k == |table| ==> ParseWith(table, t) == Scaled(t, 1)
    ensures k == |table| ==> forall j :: 0 <= j < |table| ==> !HasSuffix(t, table[j].text)
    decreases |table|
  {
    k := 0;
    if table != [] && !HasSuffix(t, table[0].text) {
      var j := DecidedBy(table[1..], t);
      k := j + 1;
    }
  }

  lemma PlainReads(d: string)
    requires d != [] && AllDigits(d)
    ensures ParseWith(SUFFIXES, d) == Scaled(d, 1)
  {
    hide Scaled, DecimalValue;
    var k := DecidedBy(SUFFIXES, d);
    if k < |SUFFIXES| {
      DigitsHaveNoSuffix(d, k);
    }
  }

  lemma SuffixedReads(d: string, i: nat)
    requires i < |SUFFIXES|
    ensures ParseWith(SUFFIXES, d + SUFFIXES[i].text) == Scaled(d, SUFFIXES[i].multiplier)
  {
    hide Scaled, ParseWith;
    var t := d + SUFFIXES[i].text;
    var k := DecidedBy(SUFFIXES, t);
    assert t[|d|..] == SUFFIXES[i].text;
    assert HasSuffix(t, SUFFIXES[i].text);
    AtMostOneSuffix(t, i, k);
    assert t[..|t| - |SUFFIXES[i].text|] == d;
  }

  lemma ReadsDetermines(t: string, d: string, m: nat)
    requires Reads(t, d, m)
    ensures ParseWith(SUFFIXES, t) == Scaled(d, m)
  {
    hide Scaled, ParseWith;
    if t == d && m == 1 {
      PlainReads(d);
    } else {
      var i :| 0 <= i < |SUFFIXES| && t == d + SUFFIXES[i].text && m == SUFFIXES[i].multiplier;
      SuffixedReads(d, i);
    }
  }

  lemma SuffixReads(t: string, d: string, i: nat)
    requires d != [] && AllDigits(d) && i < |SUFFIXES| && HasSuffix(t, SUFFIXES[i].text)
    requires d == t[..|t| - |SUFFIXES[i].text|]
    ensures Reads(t, d, SUFFIXES[i].multiplier)
  {
    assert t == d + SUFFIXES[i].text;
  }

  lemma AcceptedReads(t: string, x: nat) returns (d: string, m: nat)
    requires ParseWith(SUFFIXES, t) == Some(x)
    ensures Reads(t, d, m) && Scaled(d, m) == Some(x)
  {
    var k := DecidedBy(SUFFIXES, t);
    if k < |SUFFIXES| {
      d, m := t[..|t| - |SUFFIXES[k].text|], SUFFIXES[k].multiplier;
      ScaledExact(d, m, x);
      SuffixReads(t, d, k);
    } else {
      d, m := t, 1;
      ScaledExact(d, m, x);
    }
  }

  /** A text is accepted exactly when, trimmed, it is a decimal number with a non-zero uint64
      value v and at most one suffix; the result is v times its multiplier modulo 2^64. */
  lemma QuantityExact(s: string, x: nat)
    ensures Bytes(s) == Some(x) <==>
      exists d, m :: Reads(TrimSpace(s), d, m) && 0 < DecimalValue(d) < TWO_64 && x == Wrap64(DecimalValue(d) * m)
  {
    var t := TrimSpace(s);
    if Bytes(s) == Some(x) {
      var d, m := AcceptedReads(t, x);
      ScaledExact(d, m, x);
      assert Reads(t, d, m);
    }
    if d, m :| Reads(t, d, m) && 0 < DecimalValue(d) < TWO_64 && x == Wrap64(DecimalValue(d) * m) {
      ReadsDetermines(t, d, m);
      ScaledExact(d, m, x);
      assert t != "";
    }
  }

  /** The result is the mathematical product exactly when that product fits in 64 bits. */
  lemma NoWrapExactly(s: string, d: string, m: nat)
    requires Reads(TrimSpace(s), d, m) && 0 < DecimalValue(d) < TWO_64
    ensures Bytes(s).Some? && Bytes(s).value < TWO_64
    ensures Bytes(s) == Some(DecimalValue(d) * m) <==> DecimalValue(d) * m < TWO_64
  {
    hide ParseWith, Scaled, TrimSpace, DecimalValue, HasSuffix;
    ReadsDetermines(TrimSpace(s), d, m);
    ScaledExact(d, m, Wrap64(DecimalValue(d) * m));
  }

  /** A printed number with a suffix parses to the product modulo 2^64. */
  lemma PrintedProduct(v: nat, i: nat)
    requires 0 < v < TWO_64 && i < |SUFFIXES|
    ensures Bytes(Decimal(v) + SUFFIXES[i].text) == Some(Wrap64(v * SUFFIXES[i].multiplier))
  {
    hide Bytes, Wrap64;
    var d, e := Decimal(v), SUFFIXES[i];
    var t := d + e.text;
    SuffixShapes(i);
    assert t[0] == d[0] && IsDigit(d[0]);
    assert t[|t| - 1] == e.text[|e.text| - 1];
    TrimmedStays(t);
    assert Reads(t, d, e.multiplier);
    QuantityExact(t, Wrap64(v * e.multiplier));
  }

  /** The product can wrap: 16777217Ti means one tebibyte, and 16777216Ti means zero bytes. */
  lemma WrapsAround()
    ensures Bytes(Decimal(16777217) + "Ti") == Some(0x100_0000_0000)
    ensures Bytes(Decimal(16777216) + "Ti") == Some(0)
  {
    hide Bytes, Decimal;
    assert SUFFIXES[0] == Suffix("Ti", 0x100_0000_0000);
    PrintedProduct(16777217, 0);
    PrintedProduct(16777216, 0);
  }

  /** Printing a non-zero number with a suffix and parsing it gives the product back, under the
      same bound. */
  lemma PrintParse(v: nat, i: nat)
    requires 0 < v && i < |SUFFIXES| && v * SUFFIXES[i].multiplier < TWO_64
    ensures Bytes(Decimal(v) + SUFFIXES[i].text) == Some(v * SUFFIXES[i].multiplier)
  {
    hide Bytes, Decimal;
    SuffixShapes(i);
    ProductBounds(v, SUFFIXES[i].multiplier);
    PrintedProduct(v, i);
  }

  lemma ProductBounds(v: nat, m: nat)
    requires m > 0 && v * m < TWO_64
    ensures v < TWO_64
  {
    assert v <= v * m;
  }

  lemma PlainPrintParse(v: nat)
    requires 0 < v < TWO_64
    ensures Bytes(Decimal(v)) == Some(v)
  {
    var d := Decimal(v);
    assert IsDigit(d[0]) && IsDigit(d[|d| - 1]);
    TrimmedStays(d);
    assert Reads(d, d, 1);
    NoWrapExactly(d, d, 1);
  }

  /** The unit of each suffix: powers of 1024 with an i, of 1000 without. */
  function Unit(letter: char, binary: bool): nat {
    var base: nat := if binary then 1024 else 1000;
    match letter
    case 'K' => base
    case 'M' => base * base
    case 'G' => base * base * base
    case 'T' => base * base * base * base
    case _ => 1
  }

  /** A printed number followed by one of K, M, G, T and, for the binary units, an i, parses to the
      number times that unit, modulo 2^64. */
  lemma UnitsExactly(v: nat, letter: char, binary: bool)
    requires 0 < v < TWO_64 && letter in "KMGT"
    ensures Bytes(Decimal(v) + if binary then [letter, 'i'] else [letter]) == Some((v * Unit(letter, binary)) % TWO_64)
  {
    hide Bytes, Decimal;
    var k := UnitRow(letter, binary);
    PrintedProduct(v, k);
  }

  lemma UnitRow(letter: char, binary: bool) returns (k: nat)
    requires letter in "KMGT"
    ensures k < |SUFFIXES| && SUFFIXES[k] == Suffix(if binary then [letter, 'i'] else [letter], Unit(letter, binary))
  {
    var i := match letter case 'T' => 0 case 'G' => 1 case 'M' => 2 case _ => 3;
    k := if binary then i else i + 4;
    assert SUFFIXES[0].text == ['T', 'i'] && SUFFIXES[1].text == ['G', 'i'] && SUFFIXES[2].text == ['M', 'i'] && SUFFIXES[3].text == ['K', 'i'];
    assert SUFFIXES[4].text == ['T'] && SUFFIXES[5].text == ['G'] && SUFFIXES[6].text == ['M'] && SUFFIXES[7].text == ['K'];
  }

  /** White space around a quantity does not matter. */
  lemma PaddingIgnored(a: string, s: string, b: string)
    requires AllSpace(a) && AllSpace(b) && Trimmed(s)
    ensures Bytes(a + s + b) == Bytes(s)
  {
    hide ParseWith, TrimSpace;
    TrimSpaceExactly(a, s, b);
    TrimmedStays(s);
  }
}
