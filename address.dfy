/**
 * The address routines of the panel: the textual IPv4 and IPv6 tests, the
 * host-name test, the private-address test that guards the port scanner, the
 * expansion of an IPv6 address to colon-separated groups, and the name a
 * reverse (PTR) lookup asks for. The tests are written character by character
 * over the pieces between separators, in place of the regular expressions of
 * the source.
 */
module Address {

  import opened Common
  import opened Text

  /** The zone of IPv4 reverse names (section 3.5 of RFC 1035). */
  const Ipv4ReverseZone := ".in-addr.arpa"

  /** The zone of IPv6 reverse names (section 2.5 of RFC 3596). */
  const Ipv6ReverseZone := ".ip6.arpa"

  predicate AllDigits(s: string)
  {
    forall i :: 0 <= i < |s| ==> IsDecimalDigit(s[i])
  }

  predicate AllHex(s: string)
  {
    forall i :: 0 <= i < |s| ==> IsHexDigit(s[i])
  }

  // ---------------------------------------------------------------------------
  // isIPv4

  /** `\d{1,3}` */
  predicate IsIPv4Group(g: string)
  {
    1 <= |g| <= 3 && AllDigits(g)
  }

  /**
   * `isIPv4`: four groups of one to three digits separated by dots. The value
   * of a group is not checked, so `999.999.999.999` passes.
   */
  predicate IsIPv4(ip: string)
  {
    var groups := Split(ip, '.');
    |groups| == 4 && forall i :: 0 <= i < 4 ==> IsIPv4Group(groups[i])
  }

  /**
   * Every string `isIPv4` accepts is four groups of one to three digits written
   * with a dot between each two, so it has 7 to 15 characters.
   */
  lemma IPv4Groups(ip: string)
    requires IsIPv4(ip)
    ensures var groups := Split(ip, '.');
      (forall i :: 0 <= i < 4 ==> 1 <= |groups[i]| <= 3 && AllDigits(groups[i])) &&
      ip == groups[0] + "." + groups[1] + "." + groups[2] + "." + groups[3]
    ensures 7 <= |ip| <= 15
  {
    var groups := Split(ip, '.');
    JoinSplit(ip, '.');
    JoinFour(groups);
  }

  /** Four strings joined by dots. */
  lemma JoinFour(xs: seq<string>)
    requires |xs| == 4
    ensures Join(xs, ".") == xs[0] + "." + xs[1] + "." + xs[2] + "." + xs[3]
  {
    assert xs[1..][1..] == xs[2..];
    assert xs[2..][1..] == xs[3..];
    assert Join(xs[3..], ".") == xs[3];
    assert Join(xs[2..], ".") == xs[2] + "." + xs[3];
  }

  /** Conversely, any four groups of one to three digits joined by dots are accepted, and split back into the same groups. */
  lemma IPv4OfGroups(groups: seq<string>)
    requires |groups| == 4 && forall i :: 0 <= i < 4 ==> IsIPv4Group(groups[i])
    ensures Split(Join(groups, "."), '.') == groups
    ensures IsIPv4(Join(groups, "."))
  {
    forall i | 0 <= i < 4
      ensures '.' !in groups[i]
    {
      assert forall j :: 0 <= j < |groups[i]| ==> groups[i][j] != '.';
    }
    SplitJoin(groups, '.');
  }

  /** An IPv4 address holds digits and dots only, so in particular no colon. */
  lemma IPv4Characters(ip: string)
    ensures IsIPv4(ip) ==> forall k :: 0 <= k < |ip| ==> ip[k] == '.' || IsDecimalDigit(ip[k])
    ensures IsIPv4(ip) ==> ':' !in ip
  {
    if IsIPv4(ip) {
      forall k | 0 <= k < |ip| && ip[k] != '.'
        ensures IsDecimalDigit(ip[k])
      {
        SplitCoversChars(ip, '.', k);
        var i, j :| 0 <= i < |Split(ip, '.')| && 0 <= j < |Split(ip, '.')[i]| && Split(ip, '.')[i][j] == ip[k];
        assert IsIPv4Group(Split(ip, '.')[i]);
      }
    }
  }

  // ---------------------------------------------------------------------------
  // isIPv6

  /** `[0-9a-fA-F]{lo,hi}` */
  predicate IsHexGroup(g: string, lo: nat, hi: nat)
  {
    lo <= |g| <= hi && AllHex(g)
  }

  /** The first alternative of the first pattern of `isIPv6`: eight groups of one to four hex digits. */
  predicate IsFullIPv6(ip: string)
  {
    var pieces := Split(ip, ':');
    |pieces| == 8 && forall i :: 0 <= i < 8 ==> IsHexGroup(pieces[i], 1, 4)
  }

  /**
   * The second pattern of `isIPv6`: up to seven groups `h{0,4}:`, a lone `:`,
   * up to seven more groups `h{0,4}:` and a final `h{0,4}`. Cut at the colons,
   * such a string is a list of pieces of at most four hex digits in which the
   * piece at some index `a` in 0..7 (the one closing at the lone colon) is
   * empty and is followed by between one and eight pieces.
   */
  predicate IsCompressedIPv6(ip: string)
  {
    var pieces := Split(ip, ':');
    (forall i :: 0 <= i < |pieces| ==> IsHexGroup(pieces[i], 0, 4)) &&
    exists a :: 0 <= a <= 7 && a + 2 <= |pieces| <= a + 9 && pieces[a] == []
  }

  /** `isIPv6`: the full form, the literals `::1` and `::`, or the compressed form. */
  predicate IsIPv6(ip: string)
  {
    IsFullIPv6(ip) || ip == "::1" || ip == "::" || IsCompressedIPv6(ip)
  }

  /**
   * The language of the second pattern: up to seven pieces, an empty piece, up
   * to seven pieces and a last piece, each of at most four hex digits, joined
   * by colons, are accepted, and cutting at the colons gives the pieces back.
   */
  lemma CompressedIPv6OfPieces(front: seq<string>, back: seq<string>, last: string)
    requires |front| <= 7 && |back| <= 7
    requires forall i :: 0 <= i < |front| ==> IsHexGroup(front[i], 0, 4)
    requires forall i :: 0 <= i < |back| ==> IsHexGroup(back[i], 0, 4)
    requires IsHexGroup(last, 0, 4)
    ensures var pieces := front + [[]] + back + [last];
      Split(Join(pieces, ":"), ':') == pieces && IsIPv6(Join(pieces, ":"))
  {
    var pieces := front + [[]] + back + [last];
    forall i | 0 <= i < |pieces|
      ensures IsHexGroup(pieces[i], 0, 4) && ':' !in pieces[i]
    {
      if i < |front| {
        assert pieces[i] == front[i];
      } else if i == |front| {
      } else if i < |front| + 1 + |back| {
        assert pieces[i] == back[i - |front| - 1];
      }
      assert forall j :: 0 <= j < |pieces[i]| ==> pieces[i][j] != ':';
    }
    SplitJoin(pieces, ':');
    assert pieces[|front|] == [];
  }

  // ---------------------------------------------------------------------------
  // isValidDomain

  predicate IsLabelChar(c: char)
  {
    IsAsciiAlnum(c) || c == '-'
  }

  /**
   * `[a-zA-Z0-9]([a-zA-Z0-9-]{0,61}[a-zA-Z0-9])?`: one to 63 letters, digits
   * and hyphens, beginning and ending with a letter or digit.
   */
  predicate IsDomainLabel(name: string)
  {
    1 <= |name| <= 63 && IsAsciiAlnum(name[0]) && IsAsciiAlnum(name[|name| - 1]) &&
    forall i :: 0 <= i < |name| ==> IsLabelChar(name[i])
  }

  /** `isValidDomain`: one or more labels separated by dots; no total length limit, a single label is enough. */
  predicate IsValidDomain(domain: string)
  {
    var labels := Split(domain, '.');
    forall i :: 0 <= i < |labels| ==> IsDomainLabel(labels[i])
  }

  /** A valid host name is its labels joined by dots, and holds nothing but letters, digits, hyphens and dots. */
  lemma ValidDomainLabels(domain: string)
    requires IsValidDomain(domain)
    ensures domain == Join(Split(domain, '.'), ".")
    ensures domain != []
    ensures forall k :: 0 <= k < |domain| ==> domain[k] == '.' || IsLabelChar(domain[k])
  {
    JoinSplit(domain, '.');
    assert IsDomainLabel(Split(domain, '.')[0]);
    assert |Join(Split(domain, '.'), ".")| >= |Split(domain, '.')[0]|;
    forall k | 0 <= k < |domain| && domain[k] != '.'
      ensures IsLabelChar(domain[k])
    {
      SplitCoversChars(domain, '.', k);
      var i, j :| 0 <= i < |Split(domain, '.')| && 0 <= j < |Split(domain, '.')[i]| && Split(domain, '.')[i][j] == domain[k];
      assert IsDomainLabel(Split(domain, '.')[i]);
    }
  }

  /** Conversely, any non-empty list of labels joined by dots is a valid host name made of exactly those labels. */
  lemma ValidDomainOfLabels(labels: seq<string>)
    requires |labels| >= 1 && forall i :: 0 <= i < |labels| ==> IsDomainLabel(labels[i])
    ensures Split(Join(labels, "."), '.') == labels
    ensures IsValidDomain(Join(labels, "."))
  {
    forall i | 0 <= i < |labels|
      ensures '.' !in labels[i]
    {
      assert forall j :: 0 <= j < |labels[i]| ==> labels[i][j] != '.';
    }
    SplitJoin(labels, '.');
  }

  // ---------------------------------------------------------------------------
  // isPrivateIP

  /** `/^172\.(1[6-9]|2[0-9]|3[01])\./` */
  predicate StartsIn172Private(ip: string)
  {
    |ip| >= 7 && ip[..4] == "172." && ip[6] == '.' &&
    ((ip[4] == '1' && '6' <= ip[5] <= '9') ||
     (ip[4] == '2' && IsDecimalDigit(ip[5])) ||
     (ip[4] == '3' && (ip[5] == '0' || ip[5] == '1')))
  }

  /**
   * `isPrivateIP`: `localhost` in any letter case, `::1`, or a text beginning
   * with `127.`, `10.`, `172.16.` to `172.31.` or `192.168.`. The test is on the
   * text only: `10.example.com` counts as private.
   */
  predicate IsPrivateIP(ip: string)
  {
    if LowerAscii(ip) == "localhost" || ip == "::1" then true
    else "127." <= ip || "10." <= ip || StartsIn172Private(ip) || "192.168." <= ip
  }

  /** The block 172.16.0.0/12 as prefixes: `172.k.` for a second octet `k` from 16 to 31. */
  predicate StartsIn172Block(ip: string)
  {
    exists k :: 16 <= k <= 31 && "172." + DecimalString(k) + "." <= ip
  }

  lemma TwoDigitDecimal(k: nat)
    requires 10 <= k <= 99
    ensures DecimalString(k) == [DigitChar(k / 10), DigitChar(k % 10)]
  {
  }

  /** The pattern for the 172 block accepts exactly the prefixes `172.16.` to `172.31.`. */
  lemma StartsIn172PrivateExactly(ip: string)
    ensures StartsIn172Private(ip) <==> StartsIn172Block(ip)
  {
    if StartsIn172Private(ip) {
      var k := (ip[4] as int - '0' as int) * 10 + (ip[5] as int - '0' as int);
      TwoDigitDecimal(k);
      assert "172." + DecimalString(k) + "." == ip[..7];
    }
    if StartsIn172Block(ip) {
      var k :| 16 <= k <= 31 && "172." + DecimalString(k) + "." <= ip;
      TwoDigitDecimal(k);
      var p := "172." + DecimalString(k) + ".";
      assert ip[..4] == p[..4] && ip[4] == p[4] && ip[5] == p[5] && ip[6] == p[6];
    }
  }

  /**
   * `isPrivateIP` holds exactly for `localhost` in any letter case, `::1`, and
   * the texts beginning with `127.`, `10.`, `172.16.` to `172.31.` or `192.168.`;
   * it is false for everything else.
   */
  lemma PrivateIPExactly(ip: string)
    ensures IsPrivateIP(ip) <==>
      LowerAscii(ip) == "localhost" || ip == "::1" || "127." <= ip || "10." <= ip ||
      StartsIn172Block(ip) || "192.168." <= ip
  {
    StartsIn172PrivateExactly(ip);
  }

  // ---------------------------------------------------------------------------
  // expandIPv6

  /** `parts.filter(p => p !== '').length` */
  function NonEmptyCount(parts: seq<string>): (n: nat)
    ensures n <= |parts|
  {
    if parts == [] then 0
    else NonEmptyCount(parts[..|parts| - 1]) + (if parts[|parts| - 1] == [] then 0 else 1)
  }

  /**
   * How many `"0000"` groups one empty part pushes when `nonEmpty` parts are
   * not empty: the inner loop runs `j` from 0 to `8 - nonEmpty` inclusive,
   * that is one group more than the eight groups call for.
   */
  function ZerosPushed(nonEmpty: nat): nat
  {
    if nonEmpty <= 8 then 9 - nonEmpty else 0
  }

  /** The groups pushed for one part. */
  function PartGroups(part: string, nonEmpty: nat): seq<string>
  {
    if part == [] then Repeat("0000", ZerosPushed(nonEmpty)) else [PadStart(part, 4, '0')]
  }

  /** The groups pushed for the parts, in order, before the truncation. */
  function PushedGroups(parts: seq<string>, nonEmpty: nat): seq<string>
  {
    if parts == [] then []
    else PushedGroups(parts[..|parts| - 1], nonEmpty) + PartGroups(parts[|parts| - 1], nonEmpty)
  }

  /** The groups `expandIPv6` joins: the pushed groups, cut to the first eight. */
  function ExpansionGroups(ip: string): seq<string>
  {
    var parts := Split(ip, ':');
    var pushed := PushedGroups(parts, NonEmptyCount(parts));
    pushed[..Min(8, |pushed|)]
  }

  /** The value of `expandIPv6(ip)`. */
  function Expansion(ip: string): string
  {
    Join(ExpansionGroups(ip), ":")
  }

  /**
   * `expandIPv6`: walks the parts between colons; an empty part pushes its run
   * of `"0000"` groups one by one, any other part is padded to four characters
   * with zeros; the first eight groups are joined with colons.
   */
  method ExpandIPv6(ip: string) returns (expandedIp: string)
    ensures expandedIp == Expansion(ip)
  {
    var parts := Split(ip, ':');
    ghost var nonEmpty := NonEmptyCount(parts);
    var expanded: seq<string> := [];
    var i := 0;
    while i < |parts|
      invariant 0 <= i <= |parts|
      invariant expanded == PushedGroups(parts[..i], nonEmpty)
    {
      PushedGroupsStep(parts, i, nonEmpty);
      if parts[i] == [] {
        var zerosToAdd := 8 - NonEmptyCount(parts);
        var j := 0;
        while j <= zerosToAdd
          invariant 0 <= j <= Max(0, zerosToAdd + 1)
          invariant expanded == PushedGroups(parts[..i], nonEmpty) + Repeat("0000", j)
        {
          RepeatGrows("0000", j);
          expanded := expanded + ["0000"];
          j := j + 1;
        }
        assert j == ZerosPushed(nonEmpty);
      } else {
        assert PartGroups(parts[i], nonEmpty) == [PadStart(parts[i], 4, '0')];
        expanded := expanded + [PadStart(parts[i], 4, '0')];
      }
      i := i + 1;
    }
    assert parts[..i] == parts;
    expandedIp := Join(expanded[..Min(8, |expanded|)], ":");
  }

  lemma PushedGroupsStep(parts: seq<string>, i: int, nonEmpty: nat)
    requires 0 <= i < |parts|
    ensures PushedGroups(parts[..i + 1], nonEmpty) == PushedGroups(parts[..i], nonEmpty) + PartGroups(parts[i], nonEmpty)
  {
    assert parts[..i + 1][..i] == parts[..i];
  }

  lemma NonEmptyCountAppend(parts: seq<string>, part: string)
    ensures NonEmptyCount(parts + [part]) == NonEmptyCount(parts) + (if part == [] then 0 else 1)
  {
    assert (parts + [part])[..|parts|] == parts;
  }

  lemma PushedGroupsAppend(parts: seq<string>, part: string, nonEmpty: nat)
    ensures PushedGroups(parts + [part], nonEmpty) == PushedGroups(parts, nonEmpty) + PartGroups(part, nonEmpty)
  {
    assert (parts + [part])[..|parts|] == parts;
  }

  /** Each empty part contributes `ZerosPushed(nonEmpty)` groups and every other part one. */
  lemma {:induction false} PushedGroupCount(parts: seq<string>, nonEmpty: nat)
    ensures |PushedGroups(parts, nonEmpty)| ==
      NonEmptyCount(parts) + (|parts| - NonEmptyCount(parts)) * ZerosPushed(nonEmpty)
  {
    if parts != [] {
      var init := parts[..|parts| - 1];
      PushedGroupCount(init, nonEmpty);
      var empty := PushedGroupCountStep(parts, nonEmpty);
      CountStep(|init|, NonEmptyCount(init), empty, ZerosPushed(nonEmpty));
    }
  }

  /** One more part: `empty` is 1 when the last part is empty and 0 otherwise. */
  lemma PushedGroupCountStep(parts: seq<string>, nonEmpty: nat) returns (empty: int)
    requires parts != []
    ensures empty == 0 || empty == 1
    ensures |PushedGroups(parts, nonEmpty)| ==
      |PushedGroups(parts[..|parts| - 1], nonEmpty)| + (1 - empty + empty * ZerosPushed(nonEmpty))
    ensures NonEmptyCount(parts) == NonEmptyCount(parts[..|parts| - 1]) + 1 - empty
  {
    empty := if parts[|parts| - 1] == [] then 1 else 0;
  }

  /** The arithmetic of one more part. */
  lemma CountStep(n: int, ne: int, empty: int, z: int)
    requires empty == 0 || empty == 1
    ensures ne + (n - ne) * z + (1 - empty + empty * z) ==
      (ne + 1 - empty) + (n + 1 - (ne + 1 - empty)) * z
  {
    assert (n - ne + empty) * z == (n - ne) * z + empty * z;
  }

  /** A part list that has an empty part has fewer non-empty parts than parts. */
  lemma {:induction false} EmptyPartCounted(parts: seq<string>, a: int)
    requires 0 <= a < |parts| && parts[a] == []
    ensures NonEmptyCount(parts) < |parts|
  {
    var init := parts[..|parts| - 1];
    if a < |parts| - 1 {
      EmptyPartCounted(init, a);
    }
  }

  /** The groups one part pushes are four hex digits when the part has at most four, and hold no colon when the part holds none. */
  lemma PartGroupsShape(part: string, nonEmpty: nat)
    ensures IsHexGroup(part, 0, 4) ==>
      forall i :: 0 <= i < |PartGroups(part, nonEmpty)| ==> IsHexGroup(PartGroups(part, nonEmpty)[i], 4, 4)
    ensures ':' !in part ==>
      forall i :: 0 <= i < |PartGroups(part, nonEmpty)| ==> ':' !in PartGroups(part, nonEmpty)[i]
  {
    if part != [] {
      var g := PadStart(part, 4, '0');
      assert PartGroups(part, nonEmpty) == [g];
      forall k | |g| - |part| <= k < |g|
        ensures g[k] == part[k - (|g| - |part|)]
      {
        assert g[|g| - |part|..][k - (|g| - |part|)] == g[k];
      }
    }
  }

  /** When every part has at most four hex digits, every pushed group is exactly four hex digits. */
  lemma {:induction false} PushedGroupsHex(parts: seq<string>, nonEmpty: nat)
    requires forall k :: 0 <= k < |parts| ==> IsHexGroup(parts[k], 0, 4)
    ensures forall i :: 0 <= i < |PushedGroups(parts, nonEmpty)| ==> IsHexGroup(PushedGroups(parts, nonEmpty)[i], 4, 4)
  {
    if parts != [] {
      var init := parts[..|parts| - 1];
      assert forall k :: 0 <= k < |init| ==> init[k] == parts[k];
      PushedGroupsHex(init, nonEmpty);
      PartGroupsShape(parts[|parts| - 1], nonEmpty);
    }
  }

  /** When no part holds a colon, no pushed group does. */
  lemma {:induction false} PushedGroupsWithoutColon(parts: seq<string>, nonEmpty: nat)
    requires forall k :: 0 <= k < |parts| ==> ':' !in parts[k]
    ensures forall i :: 0 <= i < |PushedGroups(parts, nonEmpty)| ==> ':' !in PushedGroups(parts, nonEmpty)[i]
  {
    if parts != [] {
      var init := parts[..|parts| - 1];
      assert forall k :: 0 <= k < |init| ==> init[k] == parts[k];
      PushedGroupsWithoutColon(init, nonEmpty);
      PartGroupsShape(parts[|parts| - 1], nonEmpty);
    }
  }

  /** When no part is empty, the pushed groups are the parts themselves, each padded to four characters with zeros. */
  lemma {:induction false} PushedGroupsWithoutEmptyPart(parts: seq<string>, nonEmpty: nat)
    requires forall k :: 0 <= k < |parts| ==> parts[k] != []
    ensures |PushedGroups(parts, nonEmpty)| == |parts|
    ensures forall k :: 0 <= k < |parts| ==> PushedGroups(parts, nonEmpty)[k] == PadStart(parts[k], 4, '0')
  {
    if parts != [] {
      var n := |parts| - 1;
      var init := parts[..n];
      var last := parts[n];
      assert parts == init + [last];
      PushedGroupsWithoutEmptyPart(init, nonEmpty);
      PushedGroupsAppend(init, last, nonEmpty);
      PartGroupsPadded(last, nonEmpty);
    }
  }

  lemma PartGroupsPadded(part: string, nonEmpty: nat)
    requires part != []
    ensures PartGroups(part, nonEmpty) == [PadStart(part, 4, '0')]
  {
  }

  /**
   * `expandIPv6` yields at most eight groups, none of which holds a colon, so
   * cutting its result at the colons gives those groups back.
   */
  lemma ExpansionAtMostEightGroups(ip: string)
    ensures |ExpansionGroups(ip)| <= 8
    ensures forall i :: 0 <= i < |ExpansionGroups(ip)| ==> ':' !in ExpansionGroups(ip)[i]
    ensures ExpansionGroups(ip) != [] ==> Split(Expansion(ip), ':') == ExpansionGroups(ip)
  {
    var parts := Split(ip, ':');
    SplitPiecesLackSeparator(ip, ':');
    PushedGroupsWithoutColon(parts, NonEmptyCount(parts));
    var groups := ExpansionGroups(ip);
    if groups != [] {
      SplitJoin(groups, ':');
    }
  }

  /** When no part is empty, each group of the expansion is the corresponding part padded to four characters with zeros. */
  lemma ExpansionWithoutEmptyPart(ip: string)
    requires forall k :: 0 <= k < |Split(ip, ':')| ==> Split(ip, ':')[k] != []
    ensures |ExpansionGroups(ip)| == Min(8, |Split(ip, ':')|)
    ensures forall k :: 0 <= k < |ExpansionGroups(ip)| ==> ExpansionGroups(ip)[k] == PadStart(Split(ip, ':')[k], 4, '0')
  {
    var parts := Split(ip, ':');
    PushedGroupsWithoutEmptyPart(parts, NonEmptyCount(parts));
  }

  /** With an empty part, at least nine groups are pushed: the truncation to eight always cuts. */
  lemma PushedAtLeastNine(parts: seq<string>, a: int)
    requires 0 <= a < |parts| && parts[a] == []
    ensures |PushedGroups(parts, NonEmptyCount(parts))| >= 9
  {
    PushedWithEmptyPart(parts, NonEmptyCount(parts), a);
  }

  /** Every non-empty part pushes at least one group. */
  lemma {:induction false} PushedAtLeastNonEmpty(parts: seq<string>, nonEmpty: nat)
    ensures |PushedGroups(parts, nonEmpty)| >= NonEmptyCount(parts)
  {
    if parts != [] {
      var n := |parts| - 1;
      var init := parts[..n];
      assert parts == init + [parts[n]];
      PushedAtLeastNonEmpty(init, nonEmpty);
      PushedGroupsAppend(init, parts[n], nonEmpty);
      NonEmptyCountAppend(init, parts[n]);
    }
  }

  /** An empty part pushes its zero groups on top of one group per non-empty part. */
  lemma {:induction false} PushedWithEmptyPart(parts: seq<string>, nonEmpty: nat, a: int)
    requires 0 <= a < |parts| && parts[a] == []
    ensures |PushedGroups(parts, nonEmpty)| >= NonEmptyCount(parts) + ZerosPushed(nonEmpty)
  {
    var n := |parts| - 1;
    var init := parts[..n];
    assert parts == init + [parts[n]];
    PushedGroupsAppend(init, parts[n], nonEmpty);
    NonEmptyCountAppend(init, parts[n]);
    if a == n {
      PushedAtLeastNonEmpty(init, nonEmpty);
    } else {
      assert init[a] == parts[a];
      PushedWithEmptyPart(init, nonEmpty, a);
    }
  }

  /**
   * Every address `isIPv6` accepts expands to exactly eight groups of four hex
   * digits: the extra zero group of each empty part is cut off by the
   * truncation to eight.
   */
  lemma IPv6ExpandsToEightGroups(ip: string)
    requires IsIPv6(ip)
    ensures |ExpansionGroups(ip)| == 8
    ensures forall i :: 0 <= i < 8 ==> IsHexGroup(ExpansionGroups(ip)[i], 4, 4)
  {
    var parts := Split(ip, ':');
    IPv6Parts(ip);
    PushedGroupsHex(parts, NonEmptyCount(parts));
  }

  /** The parts of an address `isIPv6` accepts have at most four hex digits each and push at least eight groups. */
  lemma IPv6Parts(ip: string)
    requires IsIPv6(ip)
    ensures forall k :: 0 <= k < |Split(ip, ':')| ==> IsHexGroup(Split(ip, ':')[k], 0, 4)
    ensures |PushedGroups(Split(ip, ':'), NonEmptyCount(Split(ip, ':')))| >= 8
  {
    var parts := Split(ip, ':');
    if IsFullIPv6(ip) {
      PushedGroupsWithoutEmptyPart(parts, NonEmptyCount(parts));
    } else {
      if ip == "::1" || ip == "::" {
        LoopbackParts(ip);
      }
      assert IsCompressedIPv6(ip);
      var a :| 0 <= a <= 7 && a + 2 <= |parts| <= a + 9 && parts[a] == [];
      PushedAtLeastNine(parts, a);
    }
  }

  /** How `::1` and `::` are cut at the colons. */
  lemma LoopbackParts(ip: string)
    requires ip == "::1" || ip == "::"
    ensures Split(ip, ':') == [[], [], ip[2..]]
    ensures IsCompressedIPv6(ip)
  {
    assert ip == [] + [':'] + ([] + [':'] + ip[2..]);
    assert ':' !in ip[2..];
    SplitWithoutSeparator(ip[2..], ':');
    SplitAfterPiece([], ':', ip[2..]);
    SplitAfterPiece([], ':', [] + [':'] + ip[2..]);
    var pieces := Split(ip, ':');
    assert pieces[0] == [];
    assert forall i :: 0 <= i < |pieces| ==> IsHexGroup(pieces[i], 0, 4);
  }

  /**
   * The loopback address `::1` expands to eight zero groups: its last group is
   * cut off, because each of its two empty parts pushes eight zero groups.
   */
  lemma LoopbackExpandsToZeros()
    ensures ExpansionGroups("::1") == Repeat("0000", 8)
  {
    LoopbackParts("::1");
    TwoEmptyPartsThenGroup(Split("::1", ':'));
  }

  /** Two empty parts and a non-empty one push sixteen zero groups before the padded group. */
  lemma TwoEmptyPartsThenGroup(parts: seq<string>)
    requires |parts| == 3 && parts[0] == [] && parts[1] == [] && parts[2] != []
    ensures var pushed := PushedGroups(parts, NonEmptyCount(parts));
      |pushed| == 17 && pushed[..8] == Repeat("0000", 8)
  {
    var last := parts[2];
    assert parts == [] + [[]] + [[]] + [last];
    NonEmptyCountAppend([], []);
    NonEmptyCountAppend([[]], []);
    NonEmptyCountAppend([[], []], last);
    assert NonEmptyCount(parts) == 1;
    var z := Repeat("0000", 8);
    PushedGroupsAppend([], [], 1);
    PushedGroupsAppend([[]], [], 1);
    PushedGroupsAppend([[], []], last, 1);
    assert PushedGroups(parts, 1) == z + z + [PadStart(last, 4, '0')];
    assert (z + z + [PadStart(last, 4, '0')])[..8] == z;
  }

  // ---------------------------------------------------------------------------
  // getReverseDNSName

  /** `expanded.replace(/:/g, '')` */
  function RemoveColons(s: string): (r: string)
    ensures ':' !in r && |r| <= |s|
  {
    if s == [] then [] else (if s[0] == ':' then [] else [s[0]]) + RemoveColons(s[1..])
  }

  /** `s.split('')`: one single-character string per character. */
  function Chars(s: string): (r: seq<string>)
    ensures |r| == |s| && forall i :: 0 <= i < |s| ==> r[i] == [s[i]]
  {
    seq(|s|, i requires 0 <= i < |s| => [s[i]])
  }

  /** Writing the one-character strings of `split('')` one after the other gives the text back. */
  lemma {:induction false} ConcatChars(s: string)
    ensures Concat(Chars(s)) == s
  {
    if s != [] {
      assert Chars(s)[1..] == Chars(s[1..]);
      ConcatChars(s[1..]);
      assert s == [s[0]] + s[1..];
    }
  }

  /** The groups written one after the other. */
  function Concat(groups: seq<string>): string
  {
    if groups == [] then [] else groups[0] + Concat(groups[1..])
  }

  /**
   * `getReverseDNSName`: for an IPv4 address, the groups in reverse order
   * followed by `.in-addr.arpa`; for anything else, the hex digits of the
   * expansion in reverse order, one per label, followed by `.ip6.arpa`.
   */
  function ReverseDnsName(ip: string): string
  {
    if IsIPv4(ip) then Join(Reverse(Split(ip, '.')), ".") + Ipv4ReverseZone
    else Join(Reverse(Chars(RemoveColons(Expansion(ip)))), ".") + Ipv6ReverseZone
  }

  /**
   * For an address `isIPv4` accepts, the reverse name is its four groups in
   * reverse order followed by `.in-addr.arpa`; reversing the labels once more
   * gives the address back.
   */
  lemma IPv4ReverseName(ip: string)
    requires IsIPv4(ip)
    ensures var name := ReverseDnsName(ip);
      |name| > |Ipv4ReverseZone| && name[|name| - |Ipv4ReverseZone|..] == Ipv4ReverseZone &&
      var labels := Split(name[..|name| - |Ipv4ReverseZone|], '.');
      |labels| == 4 && (forall i :: 0 <= i < 4 ==> labels[i] == Split(ip, '.')[3 - i]) &&
      Join(Reverse(labels), ".") == ip
  {
    var groups := Split(ip, '.');
    var reversed := Reverse(groups);
    forall i | 0 <= i < 4
      ensures IsIPv4Group(reversed[i])
    {
      assert reversed[i] == groups[3 - i];
    }
    IPv4OfGroups(reversed);
    ReverseReverse(groups);
    JoinSplit(ip, '.');
    var name := ReverseDnsName(ip);
    var prefix := Join(reversed, ".");
    assert name == prefix + Ipv4ReverseZone;
    assert name[..|name| - |Ipv4ReverseZone|] == prefix;
  }

  lemma {:induction false} RemoveColonsAppend(a: string, b: string)
    ensures RemoveColons(a + b) == RemoveColons(a) + RemoveColons(b)
  {
    if a != [] {
      assert (a + b)[0] == a[0] && (a + b)[1..] == a[1..] + b;
      RemoveColonsAppend(a[1..], b);
      var first := if a[0] == ':' then [] else [a[0]];
      assert RemoveColons(a + b) == first + RemoveColons(a[1..] + b);
    } else {
      assert a + b == b;
    }
  }

  lemma {:induction false} RemoveColonsWithout(s: string)
    requires ':' !in s
    ensures RemoveColons(s) == s
  {
    if s != [] {
      assert s[0] in s;
      RemoveColonsWithout(s[1..]);
      assert [s[0]] + s[1..] == s;
    }
  }

  /** Removing the colons from groups joined by colons leaves the groups written one after the other. */
  lemma {:induction false} RemoveColonsOfJoin(groups: seq<string>)
    requires forall i :: 0 <= i < |groups| ==> ':' !in groups[i]
    ensures RemoveColons(Join(groups, ":")) == Concat(groups)
  {
    if |groups| == 1 {
      RemoveColonsWithout(groups[0]);
      assert Concat(groups[1..]) == [];
    } else if |groups| > 1 {
      RemoveColonsOfJoin(groups[1..]);
      RemoveColonsWithout(groups[0]);
      RemoveColonsAppend(groups[0] + ":", Join(groups[1..], ":"));
      RemoveColonsAppend(groups[0], ":");
    }
  }

  /** Groups of four hex digits, written one after the other, give four hex digits per group. */
  lemma {:induction false} ConcatHexGroups(groups: seq<string>)
    requires forall i :: 0 <= i < |groups| ==> IsHexGroup(groups[i], 4, 4)
    ensures |Concat(groups)| == 4 * |groups| && AllHex(Concat(groups))
  {
    if groups != [] {
      ConcatHexGroups(groups[1..]);
      var rest := Concat(groups[1..]);
      assert IsHexGroup(groups[0], 4, 4);
      forall k | 0 <= k < |groups[0] + rest|
        ensures IsHexDigit((groups[0] + rest)[k])
      {
        if k < 4 {
          assert (groups[0] + rest)[k] == groups[0][k];
        } else {
          assert (groups[0] + rest)[k] == rest[k - 4];
        }
      }
    }
  }

  /** The 32 hex digits of the expansion of an IPv6 address. */
  function Nibbles(ip: string): string
  {
    RemoveColons(Expansion(ip))
  }

  /** The expansion of an address `isIPv6` accepts holds 32 hex digits once its colons are removed. */
  lemma IPv6Nibbles(ip: string)
    requires IsIPv6(ip)
    ensures |Nibbles(ip)| == 32 && AllHex(Nibbles(ip))
  {
    IPv6ExpandsToEightGroups(ip);
    ExpansionAtMostEightGroups(ip);
    RemoveColonsOfJoin(ExpansionGroups(ip));
    ConcatHexGroups(ExpansionGroups(ip));
  }

  /** Hex digits reversed and joined by dots split back into one label per digit, last digit first. */
  lemma NibbleLabels(n: string)
    requires |n| == 32 && AllHex(n)
    ensures var labels := Split(Join(Reverse(Chars(n)), "."), '.');
      |labels| == 32 && forall i :: 0 <= i < 32 ==> labels[i] == [n[31 - i]]
  {
    var labels := Reverse(Chars(n));
    forall i | 0 <= i < |labels|
      ensures '.' !in labels[i] && labels[i] == [n[31 - i]]
    {
      assert labels[i] == [n[31 - i]];
      assert IsHexDigit(n[31 - i]);
    }
    SplitJoin(labels, '.');
  }

  /**
   * For an address `isIPv6` accepts, the reverse name is 32 labels of one hex
   * digit each, the digits of the expanded address in reverse order, followed
   * by `.ip6.arpa`.
   */
  lemma IPv6ReverseName(ip: string)
    requires IsIPv6(ip)
    ensures |Nibbles(ip)| == 32 && AllHex(Nibbles(ip))
    ensures var name := ReverseDnsName(ip);
      |name| > |Ipv6ReverseZone| && name[|name| - |Ipv6ReverseZone|..] == Ipv6ReverseZone &&
      var labels := Split(name[..|name| - |Ipv6ReverseZone|], '.');
      |labels| == 32 && forall i :: 0 <= i < 32 ==> labels[i] == [Nibbles(ip)[31 - i]]
  {
    IPv6NotIPv4(ip);
    IPv6Nibbles(ip);
    var prefix := Join(Reverse(Chars(Nibbles(ip))), ".");
    NibbleLabels(Nibbles(ip));
    var name := ReverseDnsName(ip);
    assert name == prefix + Ipv6ReverseZone;
    assert name[..|name| - |Ipv6ReverseZone|] == prefix;
  }

  /** An address `isIPv6` accepts holds a colon, so `isIPv4` rejects it. */
  lemma IPv6NotIPv4(ip: string)
    requires IsIPv6(ip)
    ensures ':' in ip && !IsIPv4(ip)
  {
    if ip == "::1" || ip == "::" {
      assert ip[0] == ':';
    } else {
      var pieces := Split(ip, ':');
      assert |pieces| >= 2 by {
        if IsCompressedIPv6(ip) {
          var a :| 0 <= a <= 7 && a + 2 <= |pieces| <= a + 9 && pieces[a] == [];
        }
      }
      SeparatorOfPieces(ip, ':');
    }
    IPv4Characters(ip);
  }
}
