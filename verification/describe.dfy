/** `describe_design`: the placed list as an English sentence. An empty room
    gives a fixed sentence; otherwise the items are tallied per catalog name in
    first-seen order and listed as "<count> <name>" entries. */
module Describe {
  import opened Common
  import opened Furniture

  const EmptyRoomText: string := "The room is completely empty."
  const Lead: string := "This design contains: "
  const Separator: string := ", "

  /** The catalog names of the placed items, in list order; nothing else of an item
      reaches the description. */
  function Names(ps: seq<Placement>): (ns: seq<string>)
    ensures |ns| == |ps|
    ensures forall i :: 0 <= i < |ps| ==> ns[i] == ps[i].kind.name
  {
    if |ps| == 0 then [] else [ps[0].kind.name] + Names(ps[1..])
  }

  /** How many entries of `ns` equal `n`. */
  function Occurrences(ns: seq<string>, n: string): (c: nat)
    ensures c <= |ns|
    ensures c > 0 <==> n in ns
  {
    if |ns| == 0 then 0
    else
      var m := |ns| - 1;
      assert ns == ns[..m] + [ns[m]];
      Occurrences(ns[..m], n) + (if ns[m] == n then 1 else 0)
  }

  /** The position at which `n` first appears in `ns`. */
  function FirstIndex(ns: seq<string>, n: string): (i: nat)
    requires n in ns
    ensures i < |ns| && ns[i] == n
    ensures forall j :: 0 <= j < i ==> ns[j] != n
  {
    var m := |ns| - 1;
    if n in ns[..m] then FirstIndex(ns[..m], n) else m
  }

  /** One dictionary item of the tally: a name and its count. */
  datatype Entry = Entry(name: string, count: nat)

  predicate DistinctNames(t: seq<Entry>) {
    forall i, j :: 0 <= i < j < |t| ==> t[i].name != t[j].name
  }

  /** Sum of the counts of a tally. */
  function Total(t: seq<Entry>): nat {
    if |t| == 0 then 0 else t[0].count + Total(t[1..])
  }

  lemma {:induction false} TotalUpdate(t: seq<Entry>, i: nat, e: Entry)
    requires i < |t|
    ensures Total(t[i := e]) + t[i].count == Total(t) + e.count
  {
    if i > 0 {
      assert t[i := e][1..] == t[1..][i - 1 := e];
      TotalUpdate(t[1..], i - 1, e);
    }
  }

  lemma {:induction false} TotalAppend(t: seq<Entry>, e: Entry)
    ensures Total(t + [e]) == Total(t) + e.count
  {
    if |t| > 0 {
      assert (t + [e])[1..] == t[1..] + [e];
      TotalAppend(t[1..], e);
    }
  }

  /** The position of the entry named `n`, if any. */
  function Find(t: seq<Entry>, n: string): (r: Option<nat>)
    ensures r.None? <==> forall i :: 0 <= i < |t| ==> t[i].name != n
    ensures r.Some? ==> r.value < |t| && t[r.value].name == n
  {
    if |t| == 0 then None
    else if t[0].name == n then Some(0)
    else match Find(t[1..], n)
      case None => None
      case Some(i) => Some(i + 1)
  }

  /** `item_counts[name] = item_counts.get(name, 0) + 1`: increments an existing entry in place,
      or appends a new entry with count 1 at the end (dictionaries keep insertion order). */
  function Bump(t: seq<Entry>, n: string): seq<Entry> {
    match Find(t, n)
    case Some(i) => t[i := Entry(n, t[i].count + 1)]
    case None => t + [Entry(n, 1)]
  }

  /** What the tally of `ns` promises: distinct names, exactly the names that occur, each with
      its number of occurrences, ordered by first occurrence. */
  predicate IsTallyOf(t: seq<Entry>, ns: seq<string>) {
    DistinctNames(t) && CountsMatch(t, ns) && CoversNames(t, ns) && FirstSeenOrder(t, ns)
  }

  predicate CountsMatch(t: seq<Entry>, ns: seq<string>) {
    forall i :: 0 <= i < |t| ==> t[i].name in ns && t[i].count == Occurrences(ns, t[i].name)
  }

  predicate CoversNames(t: seq<Entry>, ns: seq<string>) {
    forall n :: n in ns ==> Find(t, n).Some?
  }

  predicate FirstSeenOrder(t: seq<Entry>, ns: seq<string>)
    requires forall i :: 0 <= i < |t| ==> t[i].name in ns
  {
    forall i, j :: 0 <= i < j < |t| ==> FirstIndex(ns, t[i].name) < FirstIndex(ns, t[j].name)
  }

  /** Facts about a list one name longer than `pre`. */
  lemma ExtendFacts(ns: seq<string>)
    requires |ns| > 0
    ensures forall n :: n in ns[..|ns| - 1] ==> n in ns && FirstIndex(ns, n) == FirstIndex(ns[..|ns| - 1], n)
    ensures forall n :: n in ns <==> n in ns[..|ns| - 1] || n == ns[|ns| - 1]
    ensures forall n :: Occurrences(ns, n) == Occurrences(ns[..|ns| - 1], n) + (if ns[|ns| - 1] == n then 1 else 0)
    ensures ns[|ns| - 1] !in ns[..|ns| - 1] ==> FirstIndex(ns, ns[|ns| - 1]) == |ns| - 1
  {
    var m := |ns| - 1;
    assert ns == ns[..m] + [ns[m]];
  }

  /** Counting a name already in the tally increments its entry and keeps the tally's shape. */
  lemma BumpExisting(ns: seq<string>, t: seq<Entry>, i: nat)
    requires |ns| > 0
    requires IsTallyOf(t, ns[..|ns| - 1])
    requires i < |t| && t[i].name == ns[|ns| - 1]
    ensures IsTallyOf(t[i := Entry(ns[|ns| - 1], t[i].count + 1)], ns)
  {
    var m := |ns| - 1;
    var x := ns[m];
    var r := t[i := Entry(x, t[i].count + 1)];
    ExtendFacts(ns);
    assert forall k :: 0 <= k < |r| ==> r[k].name == t[k].name;
    assert DistinctNames(r);
    forall k | 0 <= k < |r|
      ensures r[k].name in ns && r[k].count == Occurrences(ns, r[k].name)
    {
      if k != i {
        assert t[k].name != x;
      }
    }
    forall n | n in ns
      ensures Find(r, n).Some?
    {
      if n != x {
        var k := Find(t, n).value;
        assert r[k].name == n;
      }
    }
    forall a, b | 0 <= a < b < |r|
      ensures FirstIndex(ns, r[a].name) < FirstIndex(ns, r[b].name)
    {
      assert FirstIndex(ns[..m], t[a].name) < FirstIndex(ns[..m], t[b].name);
    }
  }

  /** Counting a name not yet in the tally appends it with count 1. */
  lemma BumpNew(ns: seq<string>, t: seq<Entry>)
    requires |ns| > 0
    requires IsTallyOf(t, ns[..|ns| - 1])
    requires forall i :: 0 <= i < |t| ==> t[i].name != ns[|ns| - 1]
    ensures IsTallyOf(t + [Entry(ns[|ns| - 1], 1)], ns)
  {
    var r := t + [Entry(ns[|ns| - 1], 1)];
    ExtendFacts(ns);
    BumpNewFind(ns, t);
    BumpNewOrder(ns, t);
    assert DistinctNames(r);
  }

  lemma BumpNewCounts(ns: seq<string>, t: seq<Entry>)
    requires |ns| > 0
    requires IsTallyOf(t, ns[..|ns| - 1])
    requires forall i :: 0 <= i < |t| ==> t[i].name != ns[|ns| - 1]
    ensures CountsMatch(t + [Entry(ns[|ns| - 1], 1)], ns)
  {
    var m := |ns| - 1;
    var x := ns[m];
    var r := t + [Entry(x, 1)];
    ExtendFacts(ns);
    assert x !in ns[..m];
    forall k | 0 <= k < |r|
      ensures r[k].name in ns && r[k].count == Occurrences(ns, r[k].name)
    {
      if k < |t| {
        assert r[k] == t[k];
      }
    }
  }

  lemma BumpNewFind(ns: seq<string>, t: seq<Entry>)
    requires |ns| > 0
    requires IsTallyOf(t, ns[..|ns| - 1])
    ensures CoversNames(t + [Entry(ns[|ns| - 1], 1)], ns)
  {
    var x := ns[|ns| - 1];
    var r := t + [Entry(x, 1)];
    ExtendFacts(ns);
    forall n | n in ns
      ensures Find(r, n).Some?
    {
      if n != x {
        var k := Find(t, n).value;
        assert r[k].name == n;
      } else {
        assert r[|t|].name == x;
      }
    }
  }

  lemma BumpNewOrder(ns: seq<string>, t: seq<Entry>)
    requires |ns| > 0
    requires IsTallyOf(t, ns[..|ns| - 1])
    requires forall i :: 0 <= i < |t| ==> t[i].name != ns[|ns| - 1]
    ensures CountsMatch(t + [Entry(ns[|ns| - 1], 1)], ns)
    ensures FirstSeenOrder(t + [Entry(ns[|ns| - 1], 1)], ns)
  {
    var m := |ns| - 1;
    var x := ns[m];
    var r := t + [Entry(x, 1)];
    ExtendFacts(ns);
    assert x !in ns[..m];
    BumpNewCounts(ns, t);
    forall a, b | 0 <= a < b < |r|
      ensures FirstIndex(ns, r[a].name) < FirstIndex(ns, r[b].name)
    {
      assert r[a] == t[a];
      if b < |t| {
        assert r[b] == t[b];
      }
    }
  }

  /** Folding one more name into the tally of a prefix gives the tally of the longer list. */
  lemma BumpStep(ns: seq<string>, t: seq<Entry>)
    requires |ns| > 0
    requires IsTallyOf(t, ns[..|ns| - 1])
    ensures IsTallyOf(Bump(t, ns[|ns| - 1]), ns)
    ensures Total(Bump(t, ns[|ns| - 1])) == Total(t) + 1
  {
    var x := ns[|ns| - 1];
    match Find(t, x)
    case Some(i) =>
      TotalUpdate(t, i, Entry(x, t[i].count + 1));
      BumpExisting(ns, t, i);
    case None =>
      TotalAppend(t, Entry(x, 1));
      BumpNew(ns, t);
  }

  /** The per-name tally of the loop over the placed list. */
  function Tally(ns: seq<string>): (t: seq<Entry>)
    ensures IsTallyOf(t, ns)
    ensures Total(t) == |ns|
  {
    if |ns| == 0 then []
    else
      var m := |ns| - 1;
      var t := Tally(ns[..m]);
      BumpStep(ns, t);
      Bump(t, ns[m])
  }

  /** `str(count)`: decimal digits, most significant first, without leading zeros. */
  function Decimal(n: nat): (s: string)
    ensures |s| >= 1
    ensures forall i :: 0 <= i < |s| ==> '0' <= s[i] <= '9'
    ensures s[0] == '0' ==> n == 0
  {
    if n < 10 then [('0' as int + n) as char]
    else Decimal(n / 10) + [('0' as int + n % 10) as char]
  }

  predicate AllDigits(s: string) {
    forall i :: 0 <= i < |s| ==> '0' <= s[i] <= '9'
  }

  /** Reads a run of decimal digits back as a number. */
  function ParseDecimal(s: string): nat
    requires AllDigits(s)
  {
    if |s| == 0 then 0
    else ParseDecimal(s[..|s| - 1]) * 10 + (s[|s| - 1] as int - '0' as int)
  }

  lemma {:induction false} DecimalRoundTrip(n: nat)
    ensures ParseDecimal(Decimal(n)) == n
  {
    if n >= 10 {
      var s := Decimal(n);
      assert s[..|s| - 1] == Decimal(n / 10);
      DecimalRoundTrip(n / 10);
    }
  }

  /** One listed item, `f"{count} {name}"`. */
  function EntryText(e: Entry): string {
    Decimal(e.count) + " " + e.name
  }

  /** The position of the first space in `s`, if any. */
  function FirstSpace(s: string): (r: Option<nat>)
    ensures r.None? <==> forall i :: 0 <= i < |s| ==> s[i] != ' '
    ensures r.Some? ==> r.value < |s| && s[r.value] == ' ' && forall j :: 0 <= j < r.value ==> s[j] != ' '
  {
    if |s| == 0 then None
    else if s[0] == ' ' then Some(0)
    else match FirstSpace(s[1..])
      case None => None
      case Some(i) => Some(i + 1)
  }

  /** Reads an entry text back: the digits before the first space are the count, the rest
      after that space is the name. */
  function ParseEntry(s: string): Option<Entry> {
    match FirstSpace(s)
    case None => None
    case Some(i) => if 0 < i && AllDigits(s[..i]) then Some(Entry(s[i + 1..], ParseDecimal(s[..i]))) else None
  }

  /** Every listed item can be read back, whatever spaces its name contains. */
  lemma EntryRoundTrip(e: Entry)
    ensures ParseEntry(EntryText(e)) == Some(e)
  {
    var d := Decimal(e.count);
    var s := EntryText(e);
    assert s[|d|] == ' ';
    assert forall j :: 0 <= j < |d| ==> s[j] == d[j];
    assert FirstSpace(s) == Some(|d|);
    assert s[..|d|] == d;
    assert s[|d| + 1..] == e.name;
    DecimalRoundTrip(e.count);
  }

  /** `sep.join(items)`. */
  function Join(items: seq<string>, sep: string): string {
    if |items| == 0 then ""
    else if |items| == 1 then items[0]
    else items[0] + sep + Join(items[1..], sep)
  }

  function EntryTexts(t: seq<Entry>): (r: seq<string>)
    ensures |r| == |t|
    ensures forall i :: 0 <= i < |t| ==> r[i] == EntryText(t[i])
  {
    if |t| == 0 then [] else [EntryText(t[0])] + EntryTexts(t[1..])
  }

  /** The sentence for a non-empty tally: the lead phrase, the entries separated by commas,
      and a closing period. */
  function Listing(t: seq<Entry>): (d: string)
    ensures |d| > |Lead| && d[..|Lead|] == Lead && d[|d| - 1] == '.'
    ensures d != EmptyRoomText
  {
    var d := Lead + Join(EntryTexts(t), Separator) + ".";
    assert d[..|Lead|] == Lead;
    assert d[2] == Lead[2] == 'i' && EmptyRoomText[2] == 'e';
    d
  }

  /** `describe_design`: the fixed sentence exactly for an empty room; otherwise the listing of
      the tally of the items' names. */
  function DescribeDesign(ps: seq<Placement>): (d: string)
    ensures d == EmptyRoomText <==> |ps| == 0
  {
    if |ps| == 0 then EmptyRoomText else Listing(Tally(Names(ps)))
  }

  lemma {:induction false} OccurrencesUniform(ns: seq<string>, n: string)
    requires forall i :: 0 <= i < |ns| ==> ns[i] == n
    ensures Occurrences(ns, n) == |ns|
  {
    if |ns| > 0 {
      OccurrencesUniform(ns[..|ns| - 1], n);
    }
  }

  /** A list of one repeated name tallies to a single entry holding the list's length. */
  lemma TallyUniform(ns: seq<string>, n: string)
    requires |ns| > 0
    requires forall i :: 0 <= i < |ns| ==> ns[i] == n
    ensures Tally(ns) == [Entry(n, |ns|)]
  {
    var t := Tally(ns);
    assert ns[0] == n;
    var i := Find(t, n).value;
    assert t[0].name == t[|t| - 1].name;
    assert |t| == 1;
    OccurrencesUniform(ns, n);
  }

  lemma ListingSingle(e: Entry)
    ensures Listing([e]) == Lead + Decimal(e.count) + " " + e.name + "."
  {
    assert EntryTexts([e]) == [EntryText(e)];
  }

  lemma NamesUniform(ps: seq<Placement>, n: string)
    requires forall i :: 0 <= i < |ps| ==> ps[i].kind.name == n
    ensures forall i :: 0 <= i < |Names(ps)| ==> Names(ps)[i] == n
  {
  }

  /** A design made of one kind of item is described by a single entry counting all of them. */
  lemma DescribeSingleKind(ps: seq<Placement>, n: string)
    requires |ps| > 0
    requires forall i :: 0 <= i < |ps| ==> ps[i].kind.name == n
    ensures DescribeDesign(ps) == Listing([Entry(n, |ps|)])
  {
    NamesUniform(ps, n);
    TallyUniform(Names(ps), n);
  }

  /** Moving or rotating items never changes the description: only their names are read. */
  lemma DescribeIgnoresPosition(a: seq<Placement>, b: seq<Placement>)
    requires |a| == |b|
    requires forall i :: 0 <= i < |a| ==> a[i].kind.name == b[i].kind.name
    ensures DescribeDesign(a) == DescribeDesign(b)
  {
    assert Names(a) == Names(b);
  }
}
