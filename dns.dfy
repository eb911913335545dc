/**
 * What the panel makes of DNS-over-HTTPS replies. The network is left out: a
 * reply is given as its HTTP success flag and the `Answer` array of its JSON
 * body, and a query run under `Promise.allSettled` is given as its settled
 * outcome. On top of these sit the record listing of the domain panel
 * (`formatDNSResults`), the PTR name of the reverse lookup, and the count of
 * servers that resolved a name in the propagation check.
 */
module Dns {

  import opened Common
  import opened Text

  /** One element of the `Answer` array; only its `data` field is read. */
  datatype DnsRecord = DnsRecord(data: string)

  /** A DNS-over-HTTPS reply: `response.ok`, and the `Answer` array of the body when it has one. */
  datatype DohReply = DohReply(ok: bool, answer: Option<seq<DnsRecord>>)

  /** The outcome of a promise under `Promise.allSettled`. */
  datatype Settled<T> = Fulfilled(value: T) | Rejected

  /** What `queryDNSServer` resolves to: the records and the DNS status code (0 when the body has none). */
  datatype ServerResult = ServerResult(records: seq<DnsRecord>, status: int)

  /** Shown for a failed query. */
  const ErrorText := "エラー"

  /** Shown when there is no record. */
  const NoneText := "なし"

  /** The `data` fields of the records, in order. */
  function Data(records: seq<DnsRecord>): (r: seq<string>)
    ensures |r| == |records| && forall i :: 0 <= i < |records| ==> r[i] == records[i].data
  {
    if records == [] then [] else [records[0].data] + Data(records[1..])
  }

  // ---------------------------------------------------------------------------
  // Domain records

  /** `fetchDNSRecords`: a failed reply rejects; otherwise the `Answer` array, or no record when there is none. */
  function FetchDnsRecords(reply: DohReply): Settled<seq<DnsRecord>>
  {
    if !reply.ok then Rejected
    else if reply.answer.Some? then Fulfilled(reply.answer.value)
    else Fulfilled([])
  }

  /** `formatDNSResults`: the error text for a rejected query, the none text for no record, else the `data` fields one per line. */
  function FormatDnsResults(result: Settled<seq<DnsRecord>>): string
  {
    match result
    case Rejected => ErrorText
    case Fulfilled(records) => if records == [] then NoneText else Join(Data(records), "\n")
  }

  /**
   * The three cases of `formatDNSResults`: a rejected query shows the error
   * text, a query without records shows the none text, and otherwise cutting
   * the text at the line breaks gives back the `data` fields in order, as long
   * as none of them holds a line break.
   */
  lemma FormatDnsResultsCases(result: Settled<seq<DnsRecord>>)
    ensures result.Rejected? ==> FormatDnsResults(result) == ErrorText
    ensures result == Fulfilled([]) ==> FormatDnsResults(result) == NoneText
    ensures (result.Fulfilled? && result.value != [] &&
             forall i :: 0 <= i < |result.value| ==> '\n' !in result.value[i].data) ==>
      Split(FormatDnsResults(result), '\n') == Data(result.value)
  {
    if result.Fulfilled? && result.value != [] &&
      (forall i :: 0 <= i < |result.value| ==> '\n' !in result.value[i].data) {
      SplitJoin(Data(result.value), '\n');
    }
  }

  /**
   * From reply to text: a failed reply shows the error text, a reply without an
   * `Answer` array or with an empty one shows the none text, and a reply with
   * records shows their `data` fields one per line.
   */
  lemma FormattedReply(reply: DohReply)
    ensures !reply.ok ==> FormatDnsResults(FetchDnsRecords(reply)) == ErrorText
    ensures reply.ok && (reply.answer.None? || reply.answer == Some([])) ==>
      FormatDnsResults(FetchDnsRecords(reply)) == NoneText
    ensures reply.ok && reply.answer.Some? && reply.answer.value != [] ==>
      FormatDnsResults(FetchDnsRecords(reply)) == Join(Data(reply.answer.value), "\n")
  {
  }

  // ---------------------------------------------------------------------------
  // Reverse lookup

  /** `s.replace(/\.$/, '')`: one dot at the very end removed. */
  function StripTrailingDot(s: string): string
  {
    if s != [] && s[|s| - 1] == '.' then s[..|s| - 1] else s
  }

  /** Exactly one dot is removed: a name written with a final dot loses that dot and nothing else, and a name without one is kept. */
  lemma StripTrailingDotInverse(name: string)
    ensures StripTrailingDot(name + ".") == name
    ensures (name == [] || name[|name| - 1] != '.') ==> StripTrailingDot(name) == name
  {
    assert (name + ".")[..|name|] == name;
  }

  /**
   * The PTR name `fetchReverseDNS` returns: the `data` of the first answer with
   * one final dot removed; `null` when the reply failed or has no answer.
   */
  function PtrName(reply: DohReply): Option<string>
  {
    if reply.ok && reply.answer.Some? && |reply.answer.value| > 0 then
      Some(StripTrailingDot(reply.answer.value[0].data))
    else None
  }

  /** The text `loadReverseDNS` shows: the PTR name, or the none text when there is none or it is empty. */
  function ReverseDnsText(ptr: Option<string>): string
  {
    if ptr.Some? && ptr.value != [] then ptr.value else NoneText
  }

  /**
   * The PTR name is present exactly when the reply succeeded with at least one
   * answer; it is then the first answer's `data` without its final dot, so
   * that appending the dot gives the answer back when it had one.
   */
  lemma PtrNameCases(reply: DohReply)
    ensures PtrName(reply).Some? <==> reply.ok && reply.answer.Some? && reply.answer.value != []
    ensures PtrName(reply).Some? ==>
      var data := reply.answer.value[0].data;
      (data != [] && data[|data| - 1] == '.' ==> PtrName(reply).value + "." == data) &&
      (data == [] || data[|data| - 1] != '.' ==> PtrName(reply).value == data)
  {
    if PtrName(reply).Some? {
      var data := reply.answer.value[0].data;
      if data != [] && data[|data| - 1] == '.' {
        assert data[..|data| - 1] + "." == data;
      }
    }
  }

  /** The reverse lookup shows the none text exactly when there is no PTR name or it is empty; otherwise it shows the name. */
  lemma ReverseDnsTextCases(reply: DohReply)
    ensures ReverseDnsText(PtrName(reply)) == NoneText <==>
      PtrName(reply).None? || PtrName(reply).value == [] || PtrName(reply).value == NoneText
    ensures PtrName(reply).Some? && PtrName(reply).value != [] ==>
      ReverseDnsText(PtrName(reply)) == PtrName(reply).value
  {
  }

  // ---------------------------------------------------------------------------
  // Propagation check

  /** `queryDNSServer`: a failed reply rejects; otherwise the records (none without an `Answer` array) and the status. */
  function QueryDnsServer(reply: DohReply, status: Option<int>): Settled<ServerResult>
  {
    if !reply.ok then Rejected
    else Fulfilled(ServerResult(if reply.answer.Some? then reply.answer.value else [], if status.Some? then status.value else 0))
  }

  /** A server counts as resolved when its query was fulfilled with at least one record. */
  predicate Resolved(result: Settled<ServerResult>)
  {
    result.Fulfilled? && |result.value.records| > 0
  }

  /** A server resolves the name exactly when its reply succeeded with a non-empty `Answer` array. */
  lemma ResolvedReply(reply: DohReply, status: Option<int>)
    ensures Resolved(QueryDnsServer(reply, status)) <==> reply.ok && reply.answer.Some? && reply.answer.value != []
  {
  }

  /** `results.filter(result => result.status === 'fulfilled')` */
  function SuccessfulResults(results: seq<Settled<ServerResult>>): (r: seq<Settled<ServerResult>>)
    ensures |r| <= |results|
    ensures forall i :: 0 <= i < |r| ==> r[i].Fulfilled?
  {
    if results == [] then []
    else
      var last := results[|results| - 1];
      SuccessfulResults(results[..|results| - 1]) + (if last.Fulfilled? then [last] else [])
  }

  /** The second filter, on the records: the number of fulfilled results with at least one record. */
  function PropagatedCount(results: seq<Settled<ServerResult>>): nat
  {
    CountResolved(SuccessfulResults(results))
  }

  function CountResolved(results: seq<Settled<ServerResult>>): nat
  {
    if results == [] then 0
    else CountResolved(results[..|results| - 1]) + (if Resolved(results[|results| - 1]) then 1 else 0)
  }

  /** The indices of the servers that resolved the name. */
  function ResolvedIndices(results: seq<Settled<ServerResult>>): set<int>
  {
    set i | 0 <= i < |results| && Resolved(results[i])
  }

  lemma CountResolvedAppend(results: seq<Settled<ServerResult>>, r: Settled<ServerResult>)
    ensures CountResolved(results + [r]) == CountResolved(results) + (if Resolved(r) then 1 else 0)
  {
    assert (results + [r])[..|results|] == results;
  }

  lemma {:induction false} SuccessfulCount(results: seq<Settled<ServerResult>>)
    ensures CountResolved(SuccessfulResults(results)) == CountResolved(results)
  {
    if results != [] {
      var init := results[..|results| - 1];
      var last := results[|results| - 1];
      SuccessfulCount(init);
      if last.Fulfilled? {
        CountResolvedAppend(SuccessfulResults(init), last);
      } else {
        assert SuccessfulResults(results) == SuccessfulResults(init) + [];
        assert SuccessfulResults(init) + [] == SuccessfulResults(init);
      }
    }
  }

  lemma {:induction false} CountResolvedIsIndexCount(results: seq<Settled<ServerResult>>)
    ensures CountResolved(results) == |ResolvedIndices(results)|
  {
    if results != [] {
      var n := |results| - 1;
      var init := results[..n];
      CountResolvedIsIndexCount(init);
      var last: set<int> := if Resolved(results[n]) then {n} else {};
      assert ResolvedIndices(results) == ResolvedIndices(init) + last by {
        forall i | 0 <= i < n
          ensures init[i] == results[i]
        {
        }
      }
      assert ResolvedIndices(init) !! last;
    }
  }

  /**
   * The propagated count is the number of servers whose query was fulfilled
   * with at least one record, so it never exceeds the number of servers, and it
   * reaches that number exactly when every server resolved the name.
   */
  lemma PropagatedCountCounts(results: seq<Settled<ServerResult>>)
    ensures PropagatedCount(results) == |ResolvedIndices(results)|
    ensures PropagatedCount(results) <= |results|
    ensures PropagatedCount(results) == |results| <==> forall i :: 0 <= i < |results| ==> Resolved(results[i])
  {
    SuccessfulCount(results);
    CountResolvedIsIndexCount(results);
    AllResolvedIffFullCount(results);
  }

  lemma {:induction false} AllResolvedIffFullCount(results: seq<Settled<ServerResult>>)
    ensures CountResolved(results) <= |results|
    ensures CountResolved(results) == |results| <==> forall i :: 0 <= i < |results| ==> Resolved(results[i])
  {
    if results != [] {
      var n := |results| - 1;
      var init := results[..n];
      AllResolvedIffFullCount(init);
      assert forall i :: 0 <= i < n ==> init[i] == results[i];
    }
  }
}
