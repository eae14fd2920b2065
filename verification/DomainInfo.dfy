/** `pkg/libvirt/domain.go`: reading the output of `virsh domstate` and `virsh dominfo`. */
module DomainInfo {
  import opened Prelude
  import opened Text

  datatype DomainState = Running | Paused | ShutOff | Shutting | Crashed | Unknown

  function StateText(s: DomainState): string {
    match s
    case Running => "running"
    case Paused => "paused"
    case ShutOff => "shut off"
    case Shutting => "in shutdown"
    case Crashed => "crashed"
    case Unknown => "unknown"
  }

  function StateNamed(t: string): DomainState {
    if t == "running" then Running
    else if t == "paused" then Paused
    else if t == "shut off" then ShutOff
    else if t == "in shutdown" then Shutting
    else if t == "crashed" then Crashed
    else Unknown
  }

  function ParseState(raw: string): DomainState {
    StateNamed(ToLower(TrimSpace(raw)))
  }

  /** `GetState`: the parsed answer of `virsh domstate`, or nothing when the query fails. */
  function GetState(answer: Option<string>): Option<DomainState> {
    match answer case None => None case Some(text) => Some(ParseState(text))
  }

  /** The state that `GetState` returns next to its error: unknown when the query failed. */
  function Reading(r: Option<DomainState>): DomainState {
    match r case None => Unknown case Some(s) => s
  }

  function ParseKiB(s: string): nat {
    match ParseUint64(FirstField(s))
    case Parsed(n) => n
    case OutOfRange => (TWO_64 - 1) as nat
    case BadSyntax => 0
  }

  datatype Info = Info(name: string, state: DomainState, cpus: int, maxMemKiB: nat, usedMemKiB: nat)

  /** The trimmed key and value of a line, when it has a colon. */
  function KeyValue(line: string): Option<(string, string)> {
    match Cut(line, ':')
    case None => None
    case Some(kv) => Some((TrimSpace(kv.0), TrimSpace(kv.1)))
  }

  const STATE: string := "State"
  const CPUS: string := "CPU(s)"
  const MAX_MEMORY: string := "Max memory"
  const USED_MEMORY: string := "Used memory"

  function Store(info: Info, key: string, val: string): Info {
    if key == STATE then info.(state := ParseState(val))
    else if key == CPUS then (if Atoi(val).Some? then info.(cpus := Atoi(val).value) else info)
    else if key == MAX_MEMORY then info.(maxMemKiB := ParseKiB(val))
    else if key == USED_MEMORY then info.(usedMemKiB := ParseKiB(val))
    else info
  }

  function ReadLine(info: Info, line: string): Info {
    match KeyValue(line)
    case None => info
    case Some(kv) => Store(info, kv.0, kv.1)
  }

  function ReadLines(info: Info, lines: seq<string>): Info
    decreases |lines|
  {
    if lines == [] then info else ReadLines(ReadLine(info, lines[0]), lines[1..])
  }

  function Blank(name: string): Info {
    Info(name, Unknown, 0, 0, 0)
  }

  function Parse(name: string, raw: string): Info {
    ReadLines(Blank(name), Split(raw, '\n'))
  }

  method ParseDomainInfo(name: string, raw: string) returns (info: Info)
    ensures info == Parse(name, raw)
  {
    info := Blank(name);
    var lines := Split(raw, '\n');
    for i := 0 to |lines|
      invariant ReadLines(info, lines[i..]) == Parse(name, raw)
    {
      assert lines[i..][0] == lines[i] && lines[i..][1..] == lines[i + 1..];
      ghost var before := info;
      var kv := Cut(lines[i], ':');
      if kv.None? {
        continue;
      }
      var key := TrimSpace(kv.value.0);
      var val := TrimSpace(kv.value.1);
      if key == STATE {
        info := info.(state := ParseState(val));
      } else if key == CPUS {
        var n := Atoi(val);
        if n.Some? {
          info := info.(cpus := n.value);
        }
      } else if key == MAX_MEMORY {
        info := info.(maxMemKiB := ParseKiB(val));
      } else if key == USED_MEMORY {
        info := info.(usedMemKiB := ParseKiB(val));
      }
      assert info == ReadLine(before, lines[i]);
    }
  }

  // ----- Unrelated lines -----

  predicate Unrelated(line: string) {
    KeyValue(line).None? || KeyValue(line).value.0 !in {STATE, CPUS, MAX_MEMORY, USED_MEMORY}
  }

  lemma {:induction false} ReadConcat(info: Info, a: seq<string>, b: seq<string>)
    ensures ReadLines(info, a + b) == ReadLines(ReadLines(info, a), b)
    decreases |a|
  {
    if a == [] {
      assert a + b == b;
    } else {
      assert (a + b)[1..] == a[1..] + b;
      ReadConcat(ReadLine(info, a[0]), a[1..], b);
    }
  }

  lemma ReadOne(info: Info, line: string)
    ensures ReadLines(info, [line]) == ReadLine(info, line)
  {
    assert [line][1..] == [];
  }

  /** An unrelated line inserted anywhere in the output changes nothing. */
  lemma UnrelatedLinesIgnored(name: string, a: seq<string>, line: string, b: seq<string>)
    requires Unrelated(line) && |a + b| > 0 && Free(a, '\n') && Free(b, '\n') && '\n' !in line
    ensures Parse(name, Join(a + [line] + b, '\n')) == Parse(name, Join(a + b, '\n'))
  {
    SplitJoin(a + [line] + b, '\n');
    SplitJoin(a + b, '\n');
    ReadConcat(Blank(name), a + [line], b);
    ReadConcat(Blank(name), a, [line]);
    ReadConcat(Blank(name), a, b);
    ReadOne(ReadLines(Blank(name), a), line);
  }

  // ----- The last accepted occurrence of a key wins -----

  function HasKey(line: string, key: string): bool {
    KeyValue(line).Some? && KeyValue(line).value.0 == key
  }

  /** The value of the last line with this key that is accepted. */
  function LastValue(lines: seq<string>, key: string): Option<string>
    decreases |lines|
  {
    if lines == [] then None
    else
      var last := lines[|lines| - 1];
      if HasKey(last, key) && Accepted(key, KeyValue(last).value.1) then Some(KeyValue(last).value.1)
      else LastValue(lines[..|lines| - 1], key)
  }

  /** A CPU line that is not a number is skipped; every other line counts. */
  predicate Accepted(key: string, val: string) {
    key == CPUS ==> Atoi(val).Some?
  }

  predicate KnownKey(key: string) {
    key in {STATE, CPUS, MAX_MEMORY, USED_MEMORY}
  }

  /** The fields after storing one value, said field by field. */
  predicate Holds(info: Info, key: string, val: Option<string>) {
    && (key == STATE ==> info.state == if val.Some? then ParseState(val.value) else Unknown)
    && (key == CPUS ==> info.cpus == if val.Some? && Atoi(val.value).Some? then Atoi(val.value).value else 0)
    && (key == MAX_MEMORY ==> info.maxMemKiB == if val.Some? then ParseKiB(val.value) else 0)
    && (key == USED_MEMORY ==> info.usedMemKiB == if val.Some? then ParseKiB(val.value) else 0)
  }

  lemma StoreHolds(info: Info, key: string, val: string, k: string, before: Option<string>)
    requires KnownKey(k) && Holds(info, k, before)
    ensures Holds(Store(info, key, val), k, if key == k && Accepted(k, val) then Some(val) else before)
    ensures Store(info, key, val).name == info.name
  {
  }

  /** Every field is decided by the last accepted line for its key, whatever else is in the
      output; CPU lines that are not numbers are skipped, memory lines that are not count as 0. */
  lemma {:induction false} LastOccurrenceWins(name: string, lines: seq<string>, key: string)
    requires KnownKey(key)
    ensures ReadLines(Blank(name), lines).name == name
    ensures Holds(ReadLines(Blank(name), lines), key, LastValue(lines, key))
    decreases |lines|
  {
    if lines != [] {
      var init, last := lines[..|lines| - 1], lines[|lines| - 1];
      assert lines == init + [last];
      LastOccurrenceWins(name, init, key);
      ReadConcat(Blank(name), init, [last]);
      var info := ReadLines(Blank(name), init);
      ReadOne(info, last);
      var kv := KeyValue(last);
      if kv.Some? {
        StoreHolds(info, kv.value.0, kv.value.1, key, LastValue(init, key));
      }
    }
  }

  // ----- Round trip -----

  function Line(key: string, pad: string, value: string): string {
    key + ":" + (pad + value)
  }

  lemma LineKeyValue(key: string, pad: string, value: string)
    requires Trimmed(key) && ':' !in key && AllSpace(pad) && Trimmed(value)
    ensures KeyValue(Line(key, pad, value)) == Some((key, value))
  {
    CutConcat(key, ':', pad + value);
    TrimmedStays(key);
    TrimLeftPad(pad, value);
    TrimmedStays(value);
    TrimLeftStays(value);
  }

  lemma TrimLeftStays(s: string)
    requires Trimmed(s)
    ensures TrimLeft(s) == s && TrimRight(s) == s
  {
  }

  lemma StateRoundTrip(s: DomainState)
    ensures Trimmed(StateText(s)) && ParseState(StateText(s)) == s
    ensures '\n' !in StateText(s)
  {
    StateNames(s);
    var t := StateText(s);
    TrimmedStays(t);
    assert ToLower(t) == t;
  }

  lemma StateNames(s: DomainState)
    ensures StateNamed(StateText(s)) == s && Trimmed(StateText(s)) && '\n' !in StateText(s)
    ensures forall i :: 0 <= i < |StateText(s)| ==> LowerChar(StateText(s)[i]) == StateText(s)[i]
  {
  }

  lemma KiBRoundTrip(n: nat)
    ensures ParseKiB(Decimal(n) + " KiB") == if n < TWO_64 then n else (TWO_64 - 1) as nat
    ensures Trimmed(Decimal(n) + " KiB")
    ensures '\n' !in Decimal(n) + " KiB"
  {
    var d := Decimal(n);
    NoSpaceInDigits(d);
    assert TrimLeft(d + " KiB") == d + " KiB";
    LeadingWordOf(d, " KiB");
    ParseUintExact(d, n);
    assert forall i :: 0 <= i < |d| ==> IsDigit(d[i]);
  }

  /** A dominfo line, by key. */
  datatype Item = StateItem(state: DomainState) | CpuItem(cpus: int) | MaxItem(kib: nat) | UsedItem(kib: nat)

  function KeyOf(item: Item): string {
    match item case StateItem(_) => STATE case CpuItem(_) => CPUS case MaxItem(_) => MAX_MEMORY case UsedItem(_) => USED_MEMORY
  }

  function ValueOf(item: Item): string {
    match item
    case StateItem(s) => StateText(s)
    case CpuItem(n) => DecimalInt(n)
    case MaxItem(k) => Decimal(k) + " KiB"
    case UsedItem(k) => Decimal(k) + " KiB"
  }

  function PrintItem(item: Item, pad: string): string {
    Line(KeyOf(item), pad, ValueOf(item))
  }

  function Put(info: Info, item: Item): Info {
    match item
    case StateItem(s) => info.(state := s)
    case CpuItem(n) => info.(cpus := n)
    case MaxItem(k) => info.(maxMemKiB := Saturated(k))
    case UsedItem(k) => info.(usedMemKiB := Saturated(k))
  }

  predicate Valid(item: Item) {
    item.CpuItem? ==> -TWO_63 <= item.cpus < TWO_63
  }

  lemma ValueRoundTrip(item: Item)
    requires Valid(item)
    ensures Trimmed(ValueOf(item)) && '\n' !in ValueOf(item)
    ensures forall info :: Store(info, KeyOf(item), ValueOf(item)) == Put(info, item)
  {
    match item
    case StateItem(s) => StateRoundTrip(s);
    case CpuItem(n) =>
      AtoiRoundTrip(n);
      DecimalIntChars(n, '\n');
    case MaxItem(k) => KiBRoundTrip(k);
    case UsedItem(k) => KiBRoundTrip(k);
  }

  lemma ItemRoundTrip(info: Info, item: Item, pad: string)
    requires Valid(item) && AllSpace(pad) && '\n' !in pad
    ensures ReadLine(info, PrintItem(item, pad)) == Put(info, item)
    ensures '\n' !in PrintItem(item, pad)
  {
    ValueRoundTrip(item);
    KeysArePlain(item);
    LineKeyValue(KeyOf(item), pad, ValueOf(item));
  }

  lemma KeysArePlain(item: Item)
    ensures Trimmed(KeyOf(item)) && ':' !in KeyOf(item) && '\n' !in KeyOf(item)
  {
  }

  function PrintAll(items: seq<Item>, pads: seq<string>): (lines: seq<string>)
    requires |pads| == |items|
    ensures |lines| == |items|
    decreases |items|
  {
    if items == [] then [] else [PrintItem(items[0], pads[0])] + PrintAll(items[1..], pads[1..])
  }

  function PutAll(info: Info, items: seq<Item>): Info
    decreases |items|
  {
    if items == [] then info else PutAll(Put(info, items[0]), items[1..])
  }

  lemma {:induction false} ReadAll(info: Info, items: seq<Item>, pads: seq<string>)
    requires |pads| == |items|
    requires forall i :: 0 <= i < |items| ==> Valid(items[i]) && AllSpace(pads[i]) && '\n' !in pads[i]
    ensures ReadLines(info, PrintAll(items, pads)) == PutAll(info, items)
    ensures Free(PrintAll(items, pads), '\n')
    decreases |items|
  {
    if items != [] {
      ItemRoundTrip(info, items[0], pads[0]);
      ReadAll(Put(info, items[0]), items[1..], pads[1..]);
      ReadFirst(info, PrintItem(items[0], pads[0]), PrintAll(items[1..], pads[1..]));
    }
  }

  lemma ReadFirst(info: Info, line: string, rest: seq<string>)
    requires '\n' !in line && Free(rest, '\n')
    ensures ReadLines(info, [line] + rest) == ReadLines(ReadLine(info, line), rest)
    ensures Free([line] + rest, '\n')
  {
    assert ([line] + rest)[1..] == rest;
  }

  /** Printing any states, CPU counts and memory sizes as dominfo lines, in any order and with
      any padding, and parsing the text stores them; sizes beyond 64 bits saturate. */
  lemma DominfoRoundTrip(name: string, items: seq<Item>, pads: seq<string>)
    requires |pads| == |items| > 0
    requires forall i :: 0 <= i < |items| ==> Valid(items[i]) && AllSpace(pads[i]) && '\n' !in pads[i]
    ensures Parse(name, Join(PrintAll(items, pads), '\n')) == PutAll(Blank(name), items)
  {
    ReadAll(Blank(name), items, pads);
    SplitJoin(PrintAll(items, pads), '\n');
  }

  /** In particular the four lines of a domain give back its state, CPU count and sizes. */
  lemma FourLineRoundTrip(name: string, s: DomainState, cpus: int, maxKiB: nat, usedKiB: nat, pads: seq<string>)
    requires -TWO_63 <= cpus < TWO_63 && maxKiB < TWO_64 && usedKiB < TWO_64
    requires |pads| == 4 && forall i :: 0 <= i < 4 ==> AllSpace(pads[i]) && '\n' !in pads[i]
    ensures Parse(name, Join(PrintAll([StateItem(s), CpuItem(cpus), MaxItem(maxKiB), UsedItem(usedKiB)], pads), '\n'))
         == Info(name, s, cpus, maxKiB, usedKiB)
  {
    hide Parse, Join, PrintAll, PutAll, AllSpace;
    var a, b, c, d := StateItem(s), CpuItem(cpus), MaxItem(maxKiB), UsedItem(usedKiB);
    DominfoRoundTrip(name, [a, b, c, d], pads);
    PutFour(Blank(name), a, b, c, d);
  }

  lemma PutFour(info: Info, a: Item, b: Item, c: Item, d: Item)
    ensures PutAll(info, [a, b, c, d]) == Put(Put(Put(Put(info, a), b), c), d)
  {
    hide Put;
    assert [a, b, c, d][1..] == [b, c, d] && [b, c, d][1..] == [c, d] && [c, d][1..] == [d] && [d][1..] == [];
    var i1, i2 := Put(info, a), Put(Put(info, a), b);
    assert PutAll(info, [a, b, c, d]) == PutAll(i1, [b, c, d]) == PutAll(i2, [c, d]);
    assert PutAll(i2, [c, d]) == PutAll(Put(i2, c), [d]) == PutAll(Put(Put(i2, c), d), []);
  }

  /** A size is the number that the text starts with, after white space, capped at 64 bits; a text
      whose first word does not start with a digit is size zero. */
  lemma SizeExactly(pad: string, d: string, c: char, w: string, rest: string)
    requires AllSpace(pad) && d != "" && AllDigits(d) && (rest == "" || IsSpace(rest[0]))
    requires !IsDigit(c) && !IsSpace(c) && forall k :: 0 <= k < |w| ==> !IsSpace(w[k])
    ensures ParseKiB(pad + (d + rest)) == if DecimalValue(d) < TWO_64 then DecimalValue(d) else TWO_64 - 1
    ensures ParseKiB(pad + ([c] + w + rest)) == 0
  {
    NoSpaceInDigits(d);
    assert (d + rest)[0] == d[0];
    TrimLeftPad(pad, d + rest);
    LeadingWordOf(d, rest);
    ParseUintExact(d, DecimalValue(d));
    var word := [c] + w;
    assert (word + rest)[0] == c && word[0] == c;
    TrimLeftPad(pad, word + rest);
    LeadingWordOf(word, rest);
  }

  /** virsh's words and the states they stand for. */
  predicate WordFor(word: string, s: DomainState) {
    match s
    case Running => word == "running"
    case Paused => word == "paused"
    case ShutOff => word == "shut off"
    case Shutting => word == "in shutdown"
    case Crashed => word == "crashed"
    case Unknown => word !in {"running", "paused", "shut off", "in shutdown", "crashed"}
  }

  /** The state is decided by the word, whatever its case and the white space around it. */
  lemma StateOfWord(a: string, word: string, b: string, s: DomainState)
    requires AllSpace(a) && AllSpace(b) && Trimmed(word)
    ensures ParseState(a + word + b) == s <==> WordFor(ToLower(word), s)
  {
    hide TrimSpace, AllSpace, ToLower, StateNamed, WordFor;
    TrimSpaceExactly(a, word, b);
    NamedExactly(ToLower(word), s);
  }

  lemma NamedExactly(word: string, s: DomainState)
    ensures StateNamed(word) == s <==> WordFor(word, s)
  {
    WordsDiffer();
  }

  lemma WordsDiffer()
    ensures |"running"| == 7 && |"paused"| == 6 && |"shut off"| == 8 && |"in shutdown"| == 11 && |"crashed"| == 7
    ensures "running"[0] != "crashed"[0]
  {
  }

  /** The texts that virsh prints, key by key. */
  function Line4(word: string, cpus: string, maxKiB: string, usedKiB: string, pads: seq<string>): seq<string>
    requires |pads| == 4
  {
    ["State:" + (pads[0] + word), "CPU(s):" + (pads[1] + cpus),
     "Max memory:" + (pads[2] + (maxKiB + " KiB")), "Used memory:" + (pads[3] + (usedKiB + " KiB"))]
  }

  /** Reading those four lines, written out, gives the state, the count and the two sizes, each in
      its own field. */
  lemma FourLinesRead(name: string, word: string, s: DomainState, cpus: int, maxKiB: nat, usedKiB: nat, pads: seq<string>)
    requires WordFor(word, s) && s != Unknown && -TWO_63 <= cpus < TWO_63 && maxKiB < TWO_64 && usedKiB < TWO_64
    requires |pads| == 4 && forall i :: 0 <= i < 4 ==> AllSpace(pads[i]) && '\n' !in pads[i]
    ensures Parse(name, Join(Line4(word, DecimalInt(cpus), Decimal(maxKiB), Decimal(usedKiB), pads), '\n'))
         == Info(name, s, cpus, maxKiB, usedKiB)
  {
    hide Parse, Join, AllSpace, DecimalInt, Decimal;
    FourLineRoundTrip(name, s, cpus, maxKiB, usedKiB, pads);
    var items := [StateItem(s), CpuItem(cpus), MaxItem(maxKiB), UsedItem(usedKiB)];
    PrintFour(items[0], items[1], items[2], items[3], pads);
    WordIsText(word, s);
    KeysAreTexts();
    assert PrintAll(items, pads) == Line4(word, DecimalInt(cpus), Decimal(maxKiB), Decimal(usedKiB), pads);
  }

  lemma PrintFour(a: Item, b: Item, c: Item, d: Item, pads: seq<string>)
    requires |pads| == 4
    ensures PrintAll([a, b, c, d], pads) == [PrintItem(a, pads[0]), PrintItem(b, pads[1]), PrintItem(c, pads[2]), PrintItem(d, pads[3])]
  {
    hide PrintItem;
    assert [a, b, c, d][1..] == [b, c, d] && [b, c, d][1..] == [c, d] && [c, d][1..] == [d] && [d][1..] == [];
    var p1, p2, p3 := pads[1..], pads[2..], pads[3..];
    assert p1[1..] == p2 && p2[1..] == p3 && p3[1..] == [];
    assert PrintAll([d], p3) == [PrintItem(d, pads[3])];
    assert PrintAll([c, d], p2) == [PrintItem(c, pads[2]), PrintItem(d, pads[3])];
    assert PrintAll([b, c, d], p1) == [PrintItem(b, pads[1])] + PrintAll([c, d], p2);
  }

  lemma WordIsText(word: string, s: DomainState)
    requires WordFor(word, s) && s != Unknown
    ensures StateText(s) == word
  {
  }

  lemma KeysAreTexts()
    ensures STATE + ":" == "State:" && CPUS + ":" == "CPU(s):"
    ensures MAX_MEMORY + ":" == "Max memory:" && USED_MEMORY + ":" == "Used memory:"
  {
  }

  function Saturated(n: nat): nat {
    if n < TWO_64 then n else (TWO_64 - 1) as nat
  }
}
