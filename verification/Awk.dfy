/**
 The text operations the wrapper's awk programs apply to one argument: searching for a
 literal, replacing every occurrence of a literal, and reading the first node name.  A word
 is related to the list of its segments between quote characters, where a JSON field
 `"key":"name"` is three consecutive segments.
 */
module Awk {
  import opened Text

  const QUOTE: char := '"'

  predicate QuoteFree(s: string) { QUOTE !in s }

  /** The text `"key":"name"`. */
  function Field(key: string, name: string): string {
    [QUOTE] + key + [QUOTE] + ":" + [QUOTE] + name + [QUOTE]
  }

  predicate MatchAt(w: string, p: string, i: int) {
    0 <= i && i + |p| <= |w| && w[i..i + |p|] == p
  }

  /** `$0 ~ p` for a pattern without regular-expression metacharacters. */
  ghost predicate Contains(w: string, p: string) {
    exists i :: MatchAt(w, p, i)
  }

  /** `gsub(p, r)` for a literal pattern: leftmost matches, without overlap. */
  function GSub(w: string, p: string, r: string): string
    requires p != []
    decreases |w|
  {
    if |w| < |p| then w
    else if w[..|p|] == p then r + GSub(w[|p|..], p, r)
    else [w[0]] + GSub(w[1..], p, r)
  }

  /** `match` with `"node-name":"[^"]+"` and the `substr` that follows it: the first node
      name in the word, or the empty text when there is none. */
  function NodeName(w: string): (n: string)
    ensures QuoteFree(n)
    decreases |w|
  {
    if w == [] then ""
    else if HasPrefix(w, "\"node-name\":\"") && 0 < IndexOf(w[13..], QUOTE) < |w[13..]| then
      w[13..][..IndexOf(w[13..], QUOTE)]
    else NodeName(w[1..])
  }

  lemma NodeNameHere(w: string)
    requires HasPrefix(w, "\"node-name\":\"") && 0 < IndexOf(w[13..], QUOTE) < |w[13..]|
    ensures Contains(w, Field("node-name", NodeName(w)))
  {
    var t := w[13..];
    var e := IndexOf(t, QUOTE);
    var p := Field("node-name", NodeName(w));
    assert p == "\"node-name\":\"" + (t[..e] + [QUOTE]);
    assert t[..e + 1] == t[..e] + [QUOTE];
    assert w[..13 + e + 1] == w[..13] + t[..e + 1];
    assert MatchAt(w, p, 0);
  }

  lemma {:induction false} NodeNameOccurs(w: string)
    requires NodeName(w) != ""
    ensures Contains(w, Field("node-name", NodeName(w)))
    decreases |w|
  {
    if HasPrefix(w, "\"node-name\":\"") && 0 < IndexOf(w[13..], QUOTE) < |w[13..]| {
      NodeNameHere(w);
    } else {
      NodeNameOccurs(w[1..]);
      var p := Field("node-name", NodeName(w));
      var i :| MatchAt(w[1..], p, i);
      assert w[1..][i..i + |p|] == w[i + 1..i + 1 + |p|];
      assert MatchAt(w, p, i + 1);
    }
  }

  lemma MatchInRest(w: string, p: string, i: nat)
    requires 0 < i && MatchAt(w, p, i)
    ensures MatchAt(w[1..], p, i - 1) && Contains(w[1..], p)
  {
    assert w[1..][i - 1..i - 1 + |p|] == w[i..i + |p|];
    assert MatchAt(w[1..], p, i - 1);
  }

  /** A word that declares some name is never read as having none. */
  lemma {:induction false} NodeNameExists(w: string, n: string)
    requires n != "" && QuoteFree(n) && Contains(w, Field("node-name", n))
    ensures NodeName(w) != ""
    decreases |w|
  {
    var p := Field("node-name", n);
    var i :| MatchAt(w, p, i);
    if i == 0 {
      NodeNameAtStart(w, n);
    } else if !(HasPrefix(w, "\"node-name\":\"") && 0 < IndexOf(w[13..], QUOTE) < |w[13..]|) {
      MatchInRest(w, p, i);
      NodeNameExists(w[1..], n);
    }
  }

  lemma NodeNameAtStart(w: string, n: string)
    requires n != "" && QuoteFree(n) && MatchAt(w, Field("node-name", n), 0)
    ensures HasPrefix(w, "\"node-name\":\"") && IndexOf(w[13..], QUOTE) == |n| && |n| < |w[13..]|
  {
    var p := Field("node-name", n);
    var rest := w[|p|..];
    assert p == "\"node-name\":\"" + (n + [QUOTE]);
    assert w[..13] == p[..13] == "\"node-name\":\"";
    assert w[13..] == n + [QUOTE] + rest;
    IndexOfConcat(n, QUOTE, rest);
  }

  // ----- Segments -----

  function Segments(w: string): (segs: seq<string>)
    ensures |segs| >= 1
  {
    Split(w, QUOTE)
  }

  lemma SegmentsDetermine(v: string, w: string)
    requires Segments(v) == Segments(w)
    ensures v == w
  {
    JoinSplit(v, QUOTE);
    JoinSplit(w, QUOTE);
  }

  lemma FieldRegroup(a: string, key: string, name: string, b: string)
    ensures a + Field(key, name) + b == a + [QUOTE] + (key + [QUOTE] + (":" + [QUOTE] + (name + [QUOTE] + b)))
  {
  }

  lemma FreeHead(head: string, tail: string)
    requires QuoteFree(head)
    ensures Segments(head + [QUOTE] + tail) == [head] + Segments(tail)
  {
    SplitConcat(head, tail, QUOTE);
    SplitFree(head, QUOTE);
  }

  lemma FieldSegments(a: string, key: string, name: string, b: string)
    requires QuoteFree(key) && QuoteFree(name)
    ensures Segments(a + Field(key, name) + b) == Segments(a) + [key, ":", name] + Segments(b)
  {
    var t3 := name + [QUOTE] + b;
    var t2 := ":" + [QUOTE] + t3;
    var t1 := key + [QUOTE] + t2;
    FieldRegroup(a, key, name, b);
    SplitConcat(a, t1, QUOTE);
    FreeHead(key, t2);
    FreeHead(":", t3);
    FreeHead(name, b);
    assert [key] + ([":"] + ([name] + Segments(b))) == [key, ":", name] + Segments(b);
  }

  /** Segments i, i+1, i+2 are a field with this key, closed by a further quote. */
  predicate KeyAt(segs: seq<string>, i: int, key: string) {
    1 <= i && i + 3 < |segs| && segs[i] == key && segs[i + 1] == ":"
  }

  predicate FieldAt(segs: seq<string>, i: int, key: string, name: string) {
    KeyAt(segs, i, key) && segs[i + 2] == name
  }

  ghost predicate HasField(segs: seq<string>, key: string, name: string) {
    exists i :: FieldAt(segs, i, key, name)
  }

  lemma FieldAtMeansMatch(w: string, key: string, name: string, i: int)
    requires FieldAt(Segments(w), i, key, name)
    ensures Contains(w, Field(key, name))
  {
    var segs := Segments(w);
    var a, b := segs[..i], segs[i + 3..];
    assert segs == a + ([key, ":", name] + b);
    JoinSplit(w, QUOTE);
    JoinConcat(a, [key, ":", name] + b, QUOTE);
    JoinConcat([key, ":", name], b, QUOTE);
    JoinThree(key, name);
    Regroup(Join(a, QUOTE), Join([key, ":", name], QUOTE), Join(b, QUOTE));
    MatchInside(Join(a, QUOTE), Field(key, name), Join(b, QUOTE));
  }

  lemma Regroup(a: string, m: string, b: string)
    ensures a + [QUOTE] + (m + [QUOTE] + b) == a + ([QUOTE] + m + [QUOTE]) + b
  {
  }

  lemma MatchInside(a: string, p: string, b: string)
    ensures Contains(a + p + b, p)
  {
    assert MatchAt(a + p + b, p, |a|);
  }

  lemma JoinThree(key: string, name: string)
    ensures [QUOTE] + Join([key, ":", name], QUOTE) + [QUOTE] == Field(key, name)
  {
    JoinConcat([":"], [name], QUOTE);
    JoinConcat([key], [":", name], QUOTE);
    assert [":"] + [name] == [":", name];
    assert [key] + [":", name] == [key, ":", name];
  }

  /** Searching the text for a field is looking it up among the segments. */
  lemma ContainsField(w: string, key: string, name: string)
    requires QuoteFree(key) && QuoteFree(name)
    ensures Contains(w, Field(key, name)) <==> HasField(Segments(w), key, name)
  {
    var p := Field(key, name);
    if i :| MatchAt(w, p, i) {
      var a, b := w[..i], w[i + |p|..];
      assert w == a + p + b;
      FieldSegments(a, key, name, b);
      assert FieldAt(Segments(w), |Segments(a)|, key, name);
    }
    if i :| FieldAt(Segments(w), i, key, name) {
      FieldAtMeansMatch(w, key, name, i);
    }
  }

  // ----- Replacing field values -----

  /** `gsub` of `"key":"from"` by `"key":"to"`, seen on segments. */
  function SegSub(segs: seq<string>, key: string, from: string, to: string): (r: seq<string>)
    ensures |r| == |segs|
    ensures |segs| >= 1 ==> r[0] == segs[0]
  {
    if |segs| <= 1 then segs
    else if FieldAt(segs, 1, key, from) then segs[..3] + [to] + SegSub(segs[4..], key, from, to)
    else segs[..1] + SegSub(segs[1..], key, from, to)
  }

  lemma SegSubHead(segs: seq<string>, x: string, key: string, from: string, to: string)
    requires |segs| >= 1
    ensures SegSub([x] + segs[1..], key, from, to) == [x] + SegSub(segs, key, from, to)[1..]
  {
    var t := [x] + segs[1..];
    assert t[1..] == segs[1..];
    if |segs| > 4 {
      assert t[4..] == segs[4..];
    }
  }

  lemma {:induction false} GSubOnSegments(w: string, key: string, from: string, to: string)
    requires QuoteFree(key) && QuoteFree(from) && QuoteFree(to)
    ensures Segments(GSub(w, Field(key, from), Field(key, to))) == SegSub(Segments(w), key, from, to)
    decreases |w|
  {
    var p, r := Field(key, from), Field(key, to);
    if HasPrefix(w, p) {
      GSubOnSegments(w[|p|..], key, from, to);
      GSubAtMatch(w, key, from, to);
    } else if w != [] {
      if w[0] == QUOTE {
        NoFieldAtStart(w, key, from);
      }
      GSubOnSegments(w[1..], key, from, to);
      GSubSkips(w, p, r);
      GSubPastChar(w, key, from, to);
    }
  }

  lemma GSubSkips(w: string, p: string, r: string)
    requires p != [] && w != [] && !HasPrefix(w, p)
    ensures GSub(w, p, r) == [w[0]] + GSub(w[1..], p, r)
  {
    if |w| < |p| {
      assert w == [w[0]] + w[1..];
    }
  }

  lemma GSubAtMatch(w: string, key: string, from: string, to: string)
    requires QuoteFree(key) && QuoteFree(from) && QuoteFree(to)
    requires HasPrefix(w, Field(key, from))
    requires var rest := w[|Field(key, from)|..];
             Segments(GSub(rest, Field(key, from), Field(key, to))) == SegSub(Segments(rest), key, from, to)
    ensures Segments(GSub(w, Field(key, from), Field(key, to))) == SegSub(Segments(w), key, from, to)
  {
    var p, r := Field(key, from), Field(key, to);
    var rest := w[|p|..];
    assert w == "" + p + rest;
    FieldSegments("", key, from, rest);
    FieldSegments("", key, to, GSub(rest, p, r));
    assert GSub(w, p, r) == "" + r + GSub(rest, p, r);
    var segs := Segments(w);
    assert segs == [""] + [key, ":", from] + Segments(rest);
    assert segs[4..] == Segments(rest);
    assert FieldAt(segs, 1, key, from);
    assert segs[..3] + [to] == [""] + [key, ":", to];
  }

  /** A field right after the first quote means the word starts with it or with a letter. */
  lemma NoFieldAtStart(w: string, key: string, from: string)
    requires QuoteFree(key) && QuoteFree(from)
    requires !HasPrefix(w, Field(key, from))
    requires w != [] && w[0] == QUOTE
    ensures !FieldAt(Segments(w), 1, key, from)
  {
    if FieldAt(Segments(w), 1, key, from) {
      FieldAtStart(w, key, from);
      assert false;
    }
  }

  lemma FieldAtStart(w: string, key: string, from: string)
    requires w != [] && w[0] == QUOTE && FieldAt(Segments(w), 1, key, from)
    ensures HasPrefix(w, Field(key, from))
  {
    var segs := Segments(w);
    var b := segs[4..];
    assert segs == [""] + ([key, ":", from] + b);
    JoinSplit(w, QUOTE);
    JoinConcat([""], [key, ":", from] + b, QUOTE);
    JoinConcat([key, ":", from], b, QUOTE);
    JoinThree(key, from);
    assert w == Field(key, from) + Join(b, QUOTE);
  }

  lemma GSubPastChar(w: string, key: string, from: string, to: string)
    requires w != []
    requires w[0] == QUOTE ==> !FieldAt(Segments(w), 1, key, from)
    requires GSub(w, Field(key, from), Field(key, to)) == [w[0]] + GSub(w[1..], Field(key, from), Field(key, to))
    requires Segments(GSub(w[1..], Field(key, from), Field(key, to))) == SegSub(Segments(w[1..]), key, from, to)
    ensures Segments(GSub(w, Field(key, from), Field(key, to))) == SegSub(Segments(w), key, from, to)
  {
    var g := GSub(w[1..], Field(key, from), Field(key, to));
    var t := Segments(w[1..]);
    assert ([w[0]] + g)[1..] == g;
    if w[0] == QUOTE {
      assert Segments(w)[1..] == t;
    } else {
      assert Segments(w) == [[w[0]] + t[0]] + t[1..];
      SegSubHead(t, [w[0]] + t[0], key, from, to);
    }
  }

  // ----- All values of a key -----

  /** The values of a key, read left to right. */
  function Values(segs: seq<string>, key: string): seq<string> {
    if |segs| <= 1 then []
    else if KeyAt(segs, 1, key) then [segs[3]] + Values(segs[4..], key)
    else Values(segs[1..], key)
  }

  /** Every value of a key replaced by its image under f, all at once. */
  function MapValues(segs: seq<string>, key: string, f: string -> string): (r: seq<string>)
    ensures |r| == |segs|
    ensures forall i :: 0 <= i < |segs| && i < 3 ==> r[i] == segs[i]
  {
    if |segs| <= 1 then segs
    else if KeyAt(segs, 1, key) then segs[..3] + [f(segs[3])] + MapValues(segs[4..], key, f)
    else segs[..1] + MapValues(segs[1..], key, f)
  }

  /** What follows a value of the key is neither a bare colon nor the key itself.  JSON text
      guarantees it: a string value is followed by a comma or a closing bracket. */
  ghost predicate Delimited(segs: seq<string>, key: string) {
    forall i :: KeyAt(segs, i, key) ==> segs[i + 3] != ":" && segs[i + 3] != key
  }

  /** JSON text without escaped quotes: strings at the odd positions and structure at the even
      ones, where the structure after a value string begins by ending the value. */
  ghost predicate JsonText(segs: seq<string>, key: string) {
    && (forall k :: 0 <= k < |segs| && k % 2 == 0 ==> segs[k] != key)
    && (forall k :: 0 <= k < |segs| - 2 && k % 2 == 0 && segs[k] == ":" ==> EndsValue(segs[k + 2]))
  }

  predicate EndsValue(s: string) {
    s != "" && s[0] in ",}]"
  }

  lemma JsonTextIsDelimited(segs: seq<string>, key: string)
    requires JsonText(segs, key)
    ensures Delimited(segs, key)
  {
    forall i | KeyAt(segs, i, key)
      ensures segs[i + 3] != ":" && segs[i + 3] != key
    {
      assert i % 2 == 1;
      assert segs[i + 1] == ":" && EndsValue(segs[i + 1 + 2]);
    }
  }

  /** The part of Delimited that a left-to-right scan relies on. */
  predicate Scannable(segs: seq<string>, key: string) {
    if |segs| <= 1 then true
    else if KeyAt(segs, 1, key) then segs[4] != ":" && segs[4] != key && Scannable(segs[4..], key)
    else Scannable(segs[1..], key)
  }

  lemma {:induction false} DelimitedIsScannable(segs: seq<string>, key: string)
    requires Delimited(segs, key)
    ensures Scannable(segs, key)
    decreases |segs|
  {
    if |segs| > 1 {
      var d := if KeyAt(segs, 1, key) then 4 else 1;
      assert forall i :: KeyAt(segs[d..], i, key) ==> KeyAt(segs, i + d, key);
      DelimitedIsScannable(segs[d..], key);
    }
  }

  lemma {:induction false} SegSubIsMapValues(segs: seq<string>, key: string, from: string, to: string)
    requires key != ":" && Scannable(segs, key)
    ensures SegSub(segs, key, from, to) == MapValues(segs, key, n => if n == from then to else n)
    decreases |segs|
  {
    var f := n => if n == from then to else n;
    if |segs| > 1 {
      if KeyAt(segs, 1, key) {
        SegSubIsMapValues(segs[4..], key, from, to);
        if segs[3] != from {
          var a, b, c := segs[1..], segs[2..], segs[3..];
          assert a[1..] == b && b[1..] == c && c[1..] == segs[4..];
          assert SegSub(c, key, from, to) == c[..1] + SegSub(segs[4..], key, from, to);
          assert SegSub(b, key, from, to) == b[..1] + SegSub(c, key, from, to);
          assert SegSub(a, key, from, to) == a[..1] + SegSub(b, key, from, to);
        }
      } else {
        SegSubIsMapValues(segs[1..], key, from, to);
      }
    }
  }

  /** Mapping values leaves the field structure alone. */
  lemma MapValuesKeepsHead(segs: seq<string>, key: string, f: string -> string)
    requires |segs| > 1
    ensures KeyAt(MapValues(segs, key, f), 1, key) == KeyAt(segs, 1, key)
    ensures KeyAt(segs, 1, key) ==>
      var r := MapValues(segs, key, f);
      r[4..] == MapValues(segs[4..], key, f) && r[3] == f(segs[3]) && r[4] == segs[4]
    ensures !KeyAt(segs, 1, key) ==> MapValues(segs, key, f)[1..] == MapValues(segs[1..], key, f)
  {
    var r := MapValues(segs, key, f);
    if KeyAt(segs, 1, key) {
      assert r == segs[..3] + [f(segs[3])] + MapValues(segs[4..], key, f);
    }
  }

  lemma {:induction false} ValuesOfMap(segs: seq<string>, key: string, f: string -> string)
    ensures |Values(MapValues(segs, key, f), key)| == |Values(segs, key)|
    ensures forall i :: 0 <= i < |Values(segs, key)| ==>
      Values(MapValues(segs, key, f), key)[i] == f(Values(segs, key)[i])
    decreases |segs|
  {
    if |segs| > 1 {
      MapValuesKeepsHead(segs, key, f);
      ValuesOfMap(segs[if KeyAt(segs, 1, key) then 4 else 1..], key, f);
    }
  }

  lemma {:induction false} MapKeepsScannable(segs: seq<string>, key: string, f: string -> string)
    requires Scannable(segs, key)
    ensures Scannable(MapValues(segs, key, f), key)
    decreases |segs|
  {
    if |segs| > 1 {
      MapValuesKeepsHead(segs, key, f);
      MapKeepsScannable(segs[if KeyAt(segs, 1, key) then 4 else 1..], key, f);
    }
  }

  lemma {:induction false} MapCompose(segs: seq<string>, key: string, f: string -> string, g: string -> string)
    ensures MapValues(MapValues(segs, key, f), key, g) == MapValues(segs, key, n => g(f(n)))
    decreases |segs|
  {
    if |segs| > 1 {
      MapValuesKeepsHead(segs, key, f);
      MapCompose(segs[if KeyAt(segs, 1, key) then 4 else 1..], key, f, g);
      if |segs| >= 3 {
        assert MapValues(segs, key, f)[..3] == segs[..3];
      }
    }
  }

  lemma {:induction false} MapAgree(segs: seq<string>, key: string, f: string -> string, g: string -> string)
    requires forall i :: 0 <= i < |Values(segs, key)| ==> f(Values(segs, key)[i]) == g(Values(segs, key)[i])
    ensures MapValues(segs, key, f) == MapValues(segs, key, g)
    decreases |segs|
  {
    if |segs| > 1 {
      var v := Values(segs, key);
      if KeyAt(segs, 1, key) {
        assert v[0] == segs[3];
        assert forall i :: 0 <= i < |v| - 1 ==> v[1..][i] == v[i + 1];
        MapAgree(segs[4..], key, f, g);
      } else {
        MapAgree(segs[1..], key, f, g);
      }
    }
  }

  lemma {:induction false} MapIdentity(segs: seq<string>, key: string)
    ensures MapValues(segs, key, n => n) == segs
    decreases |segs|
  {
    if |segs| > 1 {
      MapIdentity(segs[if KeyAt(segs, 1, key) then 4 else 1..], key);
    }
  }

  // ----- The node name, on segments -----

  /** The first non-empty value of a key, at whatever position. */
  function FirstValue(segs: seq<string>, key: string): string {
    if |segs| <= 1 then ""
    else if KeyAt(segs, 1, key) && segs[3] != "" then segs[3]
    else FirstValue(segs[1..], key)
  }

  lemma FirstValueHead(segs: seq<string>, x: string, key: string)
    requires |segs| >= 1
    ensures FirstValue([x] + segs[1..], key) == FirstValue(segs, key)
  {
    assert ([x] + segs[1..])[1..] == segs[1..];
  }

  lemma NameAtQuote(n: string, rest: string)
    requires QuoteFree(n) && n != ""
    ensures FirstValue(Segments("" + Field("node-name", n) + rest), "node-name") == n
  {
    hide Segments, Field;
    FieldSegments("", "node-name", n, rest);
    EmptySegment();
    var segs := Segments("" + Field("node-name", n) + rest);
    assert segs == ["", "node-name", ":", n] + Segments(rest);
    assert KeyAt(segs, 1, "node-name");
  }

  lemma EmptySegment()
    ensures Segments("") == [""]
  {
  }

  lemma NodeNameReads(w: string)
    requires HasPrefix(w, "\"node-name\":\"") && 0 < IndexOf(w[13..], QUOTE) < |w[13..]|
    ensures NodeName(w) == w[13..][..IndexOf(w[13..], QUOTE)]
  {
    hide IndexOf;
  }

  lemma NodeNameAtQuote(w: string)
    requires HasPrefix(w, "\"node-name\":\"") && 0 < IndexOf(w[13..], QUOTE) < |w[13..]|
    ensures NodeName(w) == FirstValue(Segments(w), "node-name")
  {
    hide Segments, NodeName, FirstValue, Field, IndexFrom;
    var t := w[13..];
    var n, rest := t[..IndexOf(t, QUOTE)], t[IndexOf(t, QUOTE) + 1..];
    NamePrefix(n, rest);
    assert t == n + ([QUOTE] + rest);
    assert w == "\"node-name\":\"" + t;
    NodeNameReads(w);
    NameAtQuote(n, rest);
  }

  lemma NamePrefix(n: string, rest: string)
    ensures "" + Field("node-name", n) + rest == "\"node-name\":\"" + (n + ([QUOTE] + rest))
  {
  }

  /** `match` and `substr` read the leftmost name: the first non-empty value of "node-name" among
      the word's segments, and nothing when there is none. */
  lemma {:induction false} NodeNameIsFirst(w: string)
    ensures NodeName(w) == FirstValue(Segments(w), "node-name")
    decreases |w|
  {
    if w == [] {
    } else if HasPrefix(w, "\"node-name\":\"") && 0 < IndexOf(w[13..], QUOTE) < |w[13..]| {
      NodeNameAtQuote(w);
    } else {
      NodeNameIsFirst(w[1..]);
      var t := Segments(w[1..]);
      if w[0] == QUOTE {
        assert Segments(w) == [""] + t && Segments(w)[1..] == t;
        NoNameAtStart(w);
      } else {
        assert Segments(w) == [[w[0]] + t[0]] + t[1..];
        FirstValueHead(t, [w[0]] + t[0], "node-name");
      }
    }
  }

  lemma NoNameAtStart(w: string)
    requires w != [] && w[0] == QUOTE
    requires !(HasPrefix(w, "\"node-name\":\"") && 0 < IndexOf(w[13..], QUOTE) < |w[13..]|)
    ensures !(KeyAt(Segments(w), 1, "node-name") && Segments(w)[3] != "")
  {
    var segs := Segments(w);
    if KeyAt(segs, 1, "node-name") && segs[3] != "" {
      JoinSplit(w, QUOTE);
      FieldAtStart(w, "node-name", segs[3]);
      NodeNameAtStart(w, segs[3]);
      assert false;
    }
  }

  lemma {:induction false} FirstValueAt(segs: seq<string>, i: nat, key: string)
    requires KeyAt(segs, i, key) && segs[i + 2] != ""
    requires forall j :: 1 <= j < i && KeyAt(segs, j, key) ==> segs[j + 2] == ""
    ensures FirstValue(segs, key) == segs[i + 2]
    decreases i
  {
    if i > 1 {
      var t := segs[1..];
      assert KeyAt(t, i - 1, key) && t[i + 1] == segs[i + 2];
      assert forall j :: 1 <= j < i - 1 && KeyAt(t, j, key) ==> KeyAt(segs, j + 1, key) && t[j + 2] == segs[j + 3];
      FirstValueAt(t, i - 1, key);
    }
  }
}
