/**
 * Parsing of the port specification typed by the user (`parsePorts`): a
 * comma-separated list whose entries are single ports or `a-b` ranges. A range
 * of more than five ports is refused on its own, with a diagnostic, and the
 * rest of the list is still read. The ports found are returned without
 * duplicates, in ascending order.
 */
module PortSpec {

  import opened Common
  import opened Text
  import opened JsNumber

  /** The largest number of ports one range entry may span. */
  const MaxRangeSize := 5

  /** The largest TCP port number. */
  const MaxPort := 65535

  /** The `alert` raised for a range entry that spans more than `MaxRangeSize` ports. */
  datatype Diagnostic = RangeTooLarge(start: int, end: int, size: int)

  /** How one comma-separated entry is read. */
  datatype Entry =
    | Single(port: int)
    | Range(start: int, end: int)
    | Oversized(start: int, end: int)
    | Ignored

  predicate StrictlyAscending(s: seq<int>)
  {
    forall i, j :: 0 <= i < j < |s| ==> s[i] < s[j]
  }

  predicate InPortRange(p: int)
  {
    1 <= p <= MaxPort
  }

  /** The ports `a, a + 1, ..., b`. */
  function PortRange(a: int, b: int): (r: seq<int>)
    ensures |r| == if a <= b then b - a + 1 else 0
    ensures forall i :: 0 <= i < |r| ==> r[i] == a + i
  {
    if a > b then [] else seq(b - a + 1, i => a + i)
  }

  /** The ports of the range are exactly those from `a` to `b`. */
  lemma PortRangeMembers(a: int, b: int)
    ensures forall p :: p in PortRange(a, b) <==> a <= p <= b
  {
    forall p | a <= p <= b
      ensures p in PortRange(a, b)
    {
      assert PortRange(a, b)[p - a] == p;
    }
  }

  lemma PortRangeGrows(a: int, b: int)
    requires a <= b
    ensures PortRange(a, b) == PortRange(a, b - 1) + [b]
  {
  }

  /**
   * One entry of the list, trimmed. An entry holding a `-` is a range whose
   * bounds are the first two `-`-separated pieces; both must parse to truthy
   * numbers with 1 <= start <= end <= 65535. Any other entry is a single port,
   * kept when it parses to a truthy number in 1..65535.
   */
  function ReadEntry(part: string): (e: Entry)
    ensures e.Single? ==> InPortRange(e.port)
    ensures e.Range? ==> 1 <= e.start <= e.end <= MaxPort && e.end - e.start + 1 <= MaxRangeSize
    ensures e.Oversized? ==> 1 <= e.start <= e.end <= MaxPort && e.end - e.start + 1 > MaxRangeSize
  {
    var trimmed := Trim(part);
    if '-' in trimmed then
      var pieces := Split(trimmed, '-');
      var start := ParseInt(Trim(pieces[0]));
      var end := ParseInt(Trim(pieces[1]));
      if Truthy(start) && Truthy(end) && start.value <= end.value && start.value > 0 && end.value <= MaxPort then
        if end.value - start.value + 1 > MaxRangeSize then Oversized(start.value, end.value)
        else Range(start.value, end.value)
      else Ignored
    else
      var port := ParseInt(trimmed);
      if Truthy(port) && port.value > 0 && port.value <= MaxPort then Single(port.value) else Ignored
  }

  /** The entries of the list, each read on its own. */
  function ReadEntries(parts: seq<string>): (entries: seq<Entry>)
    ensures |entries| == |parts|
  {
    if parts == [] then [] else ReadEntries(parts[..|parts| - 1]) + [ReadEntry(parts[|parts| - 1])]
  }

  lemma {:induction false} ReadEntriesAt(parts: seq<string>, k: int)
    requires 0 <= k < |parts|
    ensures ReadEntries(parts)[k] == ReadEntry(parts[k])
  {
    if k < |parts| - 1 {
      ReadEntriesAt(parts[..|parts| - 1], k);
    }
  }

  lemma ReadEntriesAppend(parts: seq<string>, t: string)
    ensures ReadEntries(parts + [t]) == ReadEntries(parts) + [ReadEntry(t)]
  {
    assert (parts + [t])[..|parts|] == parts;
  }

  lemma ReadEntriesStep(parts: seq<string>, k: int)
    requires 0 <= k < |parts|
    ensures ReadEntries(parts[..k + 1]) == ReadEntries(parts[..k]) + [ReadEntry(parts[k])]
  {
    assert parts[..k + 1][..k] == parts[..k];
  }

  lemma CollectStep(entries: seq<Entry>, e: Entry)
    ensures CollectPorts(entries + [e]) == CollectPorts(entries) + EntryPorts(e)
    ensures CollectDiagnostics(entries + [e]) == CollectDiagnostics(entries) + EntryDiagnostics(e)
  {
    assert (entries + [e])[..|entries|] == entries;
  }

  /** The ports one entry pushes. */
  function EntryPorts(e: Entry): seq<int>
  {
    match e
    case Single(p) => [p]
    case Range(a, b) => PortRange(a, b)
    case _ => []
  }

  /** The diagnostics one entry raises. */
  function EntryDiagnostics(e: Entry): seq<Diagnostic>
  {
    match e
    case Oversized(a, b) => [RangeTooLarge(a, b, b - a + 1)]
    case _ => []
  }

  /** The ports pushed by the entries, in the order of the entries. */
  function CollectPorts(entries: seq<Entry>): seq<int>
  {
    if entries == [] then [] else CollectPorts(entries[..|entries| - 1]) + EntryPorts(entries[|entries| - 1])
  }

  function CollectDiagnostics(entries: seq<Entry>): seq<Diagnostic>
  {
    if entries == [] then [] else CollectDiagnostics(entries[..|entries| - 1]) + EntryDiagnostics(entries[|entries| - 1])
  }

  /** Adds `x` to an ascending list without duplicates. */
  function Insert(x: int, s: seq<int>): seq<int>
  {
    if s == [] then [x]
    else if x < s[0] then [x] + s
    else if x == s[0] then s
    else [s[0]] + Insert(x, s[1..])
  }

  /** `[...new Set(xs)].sort((a, b) => a - b)`: the distinct elements of `xs`, ascending. */
  function DedupSort(xs: seq<int>): seq<int>
  {
    if xs == [] then [] else Insert(xs[|xs| - 1], DedupSort(xs[..|xs| - 1]))
  }

  lemma {:induction false} InsertKeepsAscending(x: int, s: seq<int>)
    requires StrictlyAscending(s)
    ensures StrictlyAscending(Insert(x, s))
    ensures forall y :: y in Insert(x, s) <==> y == x || y in s
  {
    InsertMembers(x, s);
    if s != [] && x > s[0] {
      var tail := s[1..];
      AscendingTail(s);
      InsertKeepsAscending(x, tail);
      AscendingCons(s[0], Insert(x, tail));
    }
  }

  lemma {:induction false} InsertMembers(x: int, s: seq<int>)
    ensures forall y :: y in Insert(x, s) <==> y == x || y in s
  {
    if s != [] && x > s[0] {
      InsertMembers(x, s[1..]);
      assert s == [s[0]] + s[1..];
    }
  }

  /** The tail of an ascending list is ascending and above its head. */
  lemma AscendingTail(s: seq<int>)
    requires StrictlyAscending(s) && s != []
    ensures StrictlyAscending(s[1..])
    ensures forall y :: y in s[1..] ==> s[0] < y
  {
    forall y | y in s[1..] ensures s[0] < y {
      var k :| 0 <= k < |s[1..]| && s[1..][k] == y;
      assert s[k + 1] == y;
    }
  }

  /** An element below every element of an ascending list can be put in front of it. */
  lemma AscendingCons(h: int, r: seq<int>)
    requires StrictlyAscending(r) && forall y :: y in r ==> h < y
    ensures StrictlyAscending([h] + r)
  {
    forall i, j | 0 <= i < j < |[h] + r| ensures ([h] + r)[i] < ([h] + r)[j] {
      assert ([h] + r)[j] == r[j - 1] && r[j - 1] in r;
    }
  }

  /** The de-duplicated, sorted list is strictly ascending and holds exactly the elements of its input. */
  lemma {:induction false} DedupSortAscendingSameElements(xs: seq<int>)
    ensures StrictlyAscending(DedupSort(xs))
    ensures forall y :: y in DedupSort(xs) <==> y in xs
  {
    if xs != [] {
      var init := xs[..|xs| - 1];
      DedupSortAscendingSameElements(init);
      InsertKeepsAscending(xs[|xs| - 1], DedupSort(init));
      assert xs == init + [xs[|xs| - 1]];
    }
  }

  /** The value `parsePorts` returns. */
  function ParsedPorts(portsString: string): seq<int>
  {
    DedupSort(CollectPorts(ReadEntries(Split(portsString, ','))))
  }

  /** The alerts `parsePorts` raises, in order. */
  function ParseDiagnostics(portsString: string): seq<Diagnostic>
  {
    CollectDiagnostics(ReadEntries(Split(portsString, ',')))
  }

  /**
   * The body of the loop of `parsePorts` once the entry is read: pushes a single
   * port, or each port of an admissible range one by one, or records a
   * diagnostic for an oversized range; anything else is skipped.
   */
  method PushEntry(entry: Entry, collected: seq<int>, diagnostics: seq<Diagnostic>)
    returns (collected': seq<int>, diagnostics': seq<Diagnostic>)
    ensures collected' == collected + EntryPorts(entry)
    ensures diagnostics' == diagnostics + EntryDiagnostics(entry)
  {
    collected', diagnostics' := collected, diagnostics;
    match entry {
      case Single(port) =>
        collected' := collected' + [port];
      case Range(start, end) =>
        var i := start;
        assert collected' + [] == collected';
        while i <= end
          invariant start <= i <= Max(start, end + 1)
          invariant collected' == collected + PortRange(start, i - 1)
        {
          PortRangeGrows(start, i);
          collected' := collected' + [i];
          i := i + 1;
        }
      case Oversized(start, end) =>
        diagnostics' := diagnostics' + [RangeTooLarge(start, end, end - start + 1)];
      case Ignored =>
    }
  }

  /**
   * `parsePorts`: reads the comma-separated entries in order, then removes
   * duplicates and sorts.
   */
  method ParsePorts(portsString: string) returns (ports: seq<int>, diagnostics: seq<Diagnostic>)
    ensures ports == ParsedPorts(portsString)
    ensures diagnostics == ParseDiagnostics(portsString)
  {
    var collected: seq<int> := [];
    diagnostics := [];
    var parts := Split(portsString, ',');
    var k := 0;
    while k < |parts|
      invariant 0 <= k <= |parts|
      invariant collected == CollectPorts(ReadEntries(parts[..k]))
      invariant diagnostics == CollectDiagnostics(ReadEntries(parts[..k]))
    {
      ReadEntriesStep(parts, k);
      CollectStep(ReadEntries(parts[..k]), ReadEntry(parts[k]));
      var entry := ReadEntry(parts[k]);
      collected, diagnostics := PushEntry(entry, collected, diagnostics);
      k := k + 1;
    }
    assert parts[..k] == parts;
    assert collected == CollectPorts(ReadEntries(parts));
    ports := DedupSort(collected);
  }

  // ---------------------------------------------------------------------------
  // Properties

  lemma {:induction false} CollectPortsMembership(entries: seq<Entry>, p: int)
    ensures p in CollectPorts(entries) <==> exists k :: 0 <= k < |entries| && p in EntryPorts(entries[k])
  {
    if entries != [] {
      var n := |entries| - 1;
      var init := entries[..n];
      var last := EntryPorts(entries[n]);
      CollectPortsMembership(init, p);
      assert CollectPorts(entries) == CollectPorts(init) + last;
      assert p in CollectPorts(entries) <==> p in CollectPorts(init) || p in last;
      assert forall k :: 0 <= k < n ==> init[k] == entries[k];
    }
  }

  lemma EntriesPortsMembership(parts: seq<string>, p: int)
    ensures p in CollectPorts(ReadEntries(parts)) <==> exists k :: 0 <= k < |parts| && p in EntryPorts(ReadEntry(parts[k]))
  {
    var entries := ReadEntries(parts);
    CollectPortsMembership(entries, p);
    forall k | 0 <= k < |parts|
      ensures entries[k] == ReadEntry(parts[k])
    {
      ReadEntriesAt(parts, k);
    }
  }

  lemma EntryPortsInRange(part: string)
    ensures forall p :: p in EntryPorts(ReadEntry(part)) ==> InPortRange(p)
  {
  }

  /** Every port `parsePorts` returns was named by some entry of the list, and every port an entry names is returned. */
  lemma ParsedPortsMembership(portsString: string, p: int)
    ensures p in ParsedPorts(portsString) <==>
      exists k :: 0 <= k < |Split(portsString, ',')| && p in EntryPorts(ReadEntry(Split(portsString, ',')[k]))
  {
    var parts := Split(portsString, ',');
    DedupSortAscendingSameElements(CollectPorts(ReadEntries(parts)));
    EntriesPortsMembership(parts, p);
  }

  /** The result of `parsePorts` is strictly ascending (so free of duplicates) and every port lies in 1..65535. */
  lemma ParsedPortsAscendingInRange(portsString: string)
    ensures StrictlyAscending(ParsedPorts(portsString))
    ensures forall p :: p in ParsedPorts(portsString) ==> InPortRange(p)
  {
    var parts := Split(portsString, ',');
    DedupSortAscendingSameElements(CollectPorts(ReadEntries(parts)));
    forall p | p in ParsedPorts(portsString)
      ensures InPortRange(p)
    {
      ParsedPortsMembership(portsString, p);
      var k :| 0 <= k < |parts| && p in EntryPorts(ReadEntry(parts[k]));
      EntryPortsInRange(parts[k]);
    }
  }

  /**
   * Two strictly ascending lists with the same elements are equal: whatever
   * de-duplication and sort the runtime uses, the result is `DedupSort`'s.
   */
  lemma {:induction false} AscendingListsWithSameElementsAreEqual(a: seq<int>, b: seq<int>)
    requires StrictlyAscending(a) && StrictlyAscending(b)
    requires forall y :: y in a <==> y in b
    ensures a == b
  {
    if a != [] {
      assert a[0] in a;
      assert a[0] in b;
    }
    if b != [] {
      assert b[0] in b;
      assert b[0] in a;
    }
    if a != [] && b != [] {
      assert a[0] == b[0];
      forall y
        ensures y in a[1..] <==> y in b[1..]
      {
        if y in a[1..] {
          assert y in b && y != b[0];
        }
        if y in b[1..] {
          assert y in a && y != a[0];
        }
      }
      AscendingListsWithSameElementsAreEqual(a[1..], b[1..]);
    }
  }

  /** The text `a-b` followed by `rest` is already trimmed and is a range entry. */
  lemma RangeEntryTrimmed(a: nat, b: nat, rest: string)
    requires rest == [] || (rest[0] == '-' && !IsWhitespace(rest[|rest| - 1]))
    ensures var t := DecimalString(a) + "-" + DecimalString(b) + rest;
      Trim(t) == t && '-' in t
  {
    var t := DecimalString(a) + "-" + DecimalString(b) + rest;
    RangeEntryEnds(a, b, rest);
    TrimUnchanged(t);
    assert t[|DecimalString(a)|] == '-';
  }

  /** The text `a-b` followed by `rest` begins with a digit and ends with no white space. */
  lemma RangeEntryEnds(a: nat, b: nat, rest: string)
    requires rest == [] || (rest[0] == '-' && !IsWhitespace(rest[|rest| - 1]))
    ensures var t := DecimalString(a) + "-" + DecimalString(b) + rest;
      !IsWhitespace(t[0]) && !IsWhitespace(t[|t| - 1])
  {
    var da, db := DecimalString(a), DecimalString(b);
    DigitNotWhitespace(da[0]);
    DigitNotWhitespace(db[|db| - 1]);
    JoinedEnds(da, db, rest);
  }

  lemma DigitNotWhitespace(c: char)
    requires IsDecimalDigit(c)
    ensures !IsWhitespace(c)
  {
  }

  /** The first and last characters of `x-y` followed by `rest`. */
  lemma JoinedEnds(x: string, y: string, rest: string)
    requires x != [] && y != []
    ensures var t := x + "-" + y + rest;
      t[0] == x[0] && t[|t| - 1] == if rest == [] then y[|y| - 1] else rest[|rest| - 1]
  {
  }

  /** The first two `-`-separated pieces of `a-b` followed by `rest` are `a` and `b`. */
  lemma RangeEntryPieces(a: nat, b: nat, rest: string)
    requires rest == [] || rest[0] == '-'
    ensures var t := DecimalString(a) + "-" + DecimalString(b) + rest;
      |Split(t, '-')| >= 2 && Split(t, '-')[0] == DecimalString(a) && Split(t, '-')[1] == DecimalString(b)
  {
    DecimalStringLacks(a, '-');
    DecimalStringLacks(b, '-');
    FirstTwoPieces(DecimalString(a), DecimalString(b), rest, '-');
  }

  /** How `ReadEntry` reads an already trimmed range entry whose first two pieces parse to `a` and `b`. */
  lemma ReadRangeEntry(t: string, a: int, b: int)
    requires Trim(t) == t && '-' in t
    requires ParseInt(Trim(Split(t, '-')[0])) == Some(a)
    requires ParseInt(Trim(Split(t, '-')[1])) == Some(b)
    requires 1 <= a <= b <= MaxPort
    ensures ReadEntry(t) == if b - a + 1 > MaxRangeSize then Oversized(a, b) else Range(a, b)
  {
  }

  lemma OversizedEntryEffect(t: string, a: int, b: int)
    requires ReadEntry(t) == Oversized(a, b)
    ensures EntryPorts(ReadEntry(t)) == [] && EntryDiagnostics(ReadEntry(t)) == [RangeTooLarge(a, b, b - a + 1)]
  {
  }

  /** How `ReadEntry` reads the text `a-b` followed by `rest`. */
  lemma RangeEntryRead(a: nat, b: nat, rest: string)
    requires 1 <= a <= b <= MaxPort
    requires rest == [] || (rest[0] == '-' && !IsWhitespace(rest[|rest| - 1]))
    ensures ReadEntry(DecimalString(a) + "-" + DecimalString(b) + rest) ==
      if b - a + 1 > MaxRangeSize then Oversized(a, b) else Range(a, b)
  {
    RangeEntryTrimmed(a, b, rest);
    RangeEntryPieces(a, b, rest);
    DecimalRoundTrip(a);
    DecimalRoundTrip(b);
    ReadRangeEntry(DecimalString(a) + "-" + DecimalString(b) + rest, a, b);
  }

  /**
   * A range entry `a-b` with 1 <= a <= b <= 65535 spanning at most five ports
   * pushes exactly a, a + 1, ..., b and raises nothing; pieces after the second
   * `-` are ignored.
   */
  lemma RangeEntryContributes(a: nat, b: nat, rest: string)
    requires 1 <= a <= b <= MaxPort && b - a + 1 <= MaxRangeSize
    requires rest == [] || (rest[0] == '-' && !IsWhitespace(rest[|rest| - 1]))
    ensures EntryPorts(ReadEntry(DecimalString(a) + "-" + DecimalString(b) + rest)) == PortRange(a, b)
    ensures EntryDiagnostics(ReadEntry(DecimalString(a) + "-" + DecimalString(b) + rest)) == []
  {
    RangeEntryRead(a, b, rest);
  }

  /**
   * A range entry `a-b` with 1 <= a <= b <= 65535 spanning more than five ports
   * pushes nothing and raises one diagnostic naming its bounds and size.
   */
  lemma OversizedRangeEntry(a: nat, b: nat, rest: string)
    requires 1 <= a <= b <= MaxPort && b - a + 1 > MaxRangeSize
    requires rest == [] || (rest[0] == '-' && !IsWhitespace(rest[|rest| - 1]))
    ensures EntryPorts(ReadEntry(DecimalString(a) + "-" + DecimalString(b) + rest)) == []
    ensures EntryDiagnostics(ReadEntry(DecimalString(a) + "-" + DecimalString(b) + rest)) == [RangeTooLarge(a, b, b - a + 1)]
  {
    RangeEntryRead(a, b, rest);
    OversizedEntryEffect(DecimalString(a) + "-" + DecimalString(b) + rest, a, b);
  }

  /** A positive number written in decimal parses back to itself after trimming. */
  lemma DecimalRoundTrip(n: nat)
    requires n > 0
    ensures Trim(DecimalString(n)) == DecimalString(n)
    ensures ParseInt(Trim(DecimalString(n))) == Some(n)
  {
    TrimDecimalString(n);
    ParseIntOfDecimal(n);
  }

  /** A single entry naming a port in 1..65535 in decimal pushes that port. */
  lemma SingleEntryContributes(p: nat)
    requires InPortRange(p)
    ensures EntryPorts(ReadEntry(DecimalString(p))) == [p]
    ensures EntryDiagnostics(ReadEntry(DecimalString(p))) == []
  {
    DecimalRoundTrip(p);
    DecimalStringLacks(p, '-');
  }

  /** An entry appended to a list adds its own ports and diagnostics after those of the list. */
  lemma AppendedEntry(s: string, t: string)
    requires ',' !in t
    ensures CollectPorts(ReadEntries(Split(s + [','] + t, ','))) ==
      CollectPorts(ReadEntries(Split(s, ','))) + EntryPorts(ReadEntry(t))
    ensures CollectDiagnostics(ReadEntries(Split(s + [','] + t, ','))) ==
      CollectDiagnostics(ReadEntries(Split(s, ','))) + EntryDiagnostics(ReadEntry(t))
  {
    var parts := Split(s, ',');
    SplitAppendPiece(s, ',', t);
    ReadEntriesAppend(parts, t);
    CollectStep(ReadEntries(parts), ReadEntry(t));
  }

  /**
   * An oversized range appended to any list pushes nothing, raises its one
   * diagnostic after those of the list, and leaves the ports the list yields
   * unchanged: refusing the range does not stop the parse.
   */
  lemma OversizedRangeDoesNotStopParsing(s: string, a: nat, b: nat)
    requires 1 <= a <= b <= MaxPort && b - a + 1 > MaxRangeSize
    ensures var t := DecimalString(a) + "-" + DecimalString(b);
      ParsedPorts(s + "," + t) == ParsedPorts(s) &&
      ParseDiagnostics(s + "," + t) == ParseDiagnostics(s) + [RangeTooLarge(a, b, b - a + 1)]
  {
    var t := DecimalString(a) + "-" + DecimalString(b);
    DecimalStringLacks(a, ',');
    DecimalStringLacks(b, ',');
    assert ',' !in t;
    AppendedEntry(s, t);
    assert s + "," + t == s + [','] + t;
    assert t + [] == t;
    OversizedRangeEntry(a, b, []);
    var before := CollectPorts(ReadEntries(Split(s, ',')));
    assert before + [] == before;
  }
}
