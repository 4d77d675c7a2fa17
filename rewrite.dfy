/** The answer-rewriting decision of `proxyRequest`: after a chain of
    guards, every A answer is matched against every line of the
    provider's CIDR list; on a match, and when the alias lookup returned
    answers, those answers replace the upstream's, with the sentinel's own
    CNAME records renamed to the question's name. Every other outcome,
    a parse failure included, returns the upstream response untouched. */
module Rewrite {

  import opened Wrappers
  import opened Text
  import opened Ipv4
  import opened Dns
  import opened Http
  import opened Settings

  /** What the relay sends back: the response built from the upstream's
      bytes, status and headers as they are, or a re-encoded message. */
  datatype Outcome =
    | Baseline
    | Rewritten(message: Message, status: nat, statusText: string, headers: HeaderMap)

  /** The guards before any rewriting: one question, of type A and class
      IN, not asking for the sentinel itself, and an answer list present. */
  predicate Eligible(m: Message, sentinel: string)
  {
    && m.questions.Some?
    && |m.questions.value| == 1
    && m.answers.Some?
    && m.questions.value[0].qtype == A
    && m.questions.value[0].qclass == IN
    && m.questions.value[0].name != sentinel
  }

  /** The address lies in the range written on `line`. */
  predicate LineHits(address: Addr, line: string)
  {
    ParseCidr(line).Some? && InCidr(address, ParseCidr(line).value)
  }

  predicate AllRangesParse(lines: seq<string>)
  {
    forall line :: line in lines ==> ParseCidr(line).Some?
  }

  /** What scanning one answer gives: `Some(false)` for a record that is
      not of type A; for an A record, `None` when its data or any line
      fails to parse (the parser throws), otherwise whether some line's
      range contains its address. */
  function AnswerOutcome(rr: ResourceRecord, lines: seq<string>): Option<bool>
  {
    if rr.rtype != A then Some(false)
    else
      match ParseAddress(rr.data)
      case None => None
      case Some(address) =>
        if AllRangesParse(lines) then Some(exists line :: line in lines && LineHits(address, line))
        else None
  }

  /** The provider detection as a whole: `None` when scanning some answer
      throws, otherwise whether some A answer lies in some listed range. */
  function ProviderMatch(answers: seq<ResourceRecord>, lines: seq<string>): Option<bool>
  {
    if exists rr :: rr in answers && AnswerOutcome(rr, lines).None? then None
    else Some(exists rr :: rr in answers && AnswerOutcome(rr, lines) == Some(true))
  }

  /** The inner loop for one A answer's address: every line is parsed and
      matched, and the first malformed one throws. */
  method ScanLines(address: Addr, lines: seq<string>) returns (r: Option<bool>)
    ensures r.None? <==> !AllRangesParse(lines)
    ensures r.Some? ==> (r.value <==> exists line :: line in lines && LineHits(address, line))
  {
    var hit := false;
    var j := 0;
    while j < |lines|
      invariant 0 <= j <= |lines|
      invariant forall k :: 0 <= k < j ==> ParseCidr(lines[k]).Some?
      invariant hit <==> exists k :: 0 <= k < j && LineHits(address, lines[k])
    {
      var range := ParseCidr(lines[j]);
      if range.None? {
        assert lines[j] in lines;
        return None;
      }
      if InCidr(address, range.value) {
        hit := true;
      }
      j := j + 1;
    }
    return Some(hit);
  }

  /** The body of the outer loop for one answer: only an A answer is
      looked at; its data is parsed (which may throw) and matched against
      every line. */
  method ScanAnswer(answer: ResourceRecord, lines: seq<string>) returns (r: Option<bool>)
    ensures r == AnswerOutcome(answer, lines)
  {
    if answer.rtype != A {
      return Some(false);
    }
    var address := ParseAddress(answer.data);
    if address.None? {
      return None;
    }
    r := ScanLines(address.value, lines);
  }

  /** The nested scan: every A answer against every line, setting the
      flag on each hit and never leaving early. */
  method DetectProvider(answers: seq<ResourceRecord>, lines: seq<string>) returns (r: Option<bool>)
    ensures r == ProviderMatch(answers, lines)
  {
    var provider := false;
    var i := 0;
    while i < |answers|
      invariant 0 <= i <= |answers|
      invariant forall k :: 0 <= k < i ==> AnswerOutcome(answers[k], lines).Some?
      invariant provider <==> exists k :: 0 <= k < i && AnswerOutcome(answers[k], lines) == Some(true)
    {
      var hit := ScanAnswer(answers[i], lines);
      if hit.None? {
        assert answers[i] in answers;
        return None;
      }
      provider := provider || hit.value;
      i := i + 1;
    }
    return Some(provider);
  }

  /** An alias answer as the client sees it: a CNAME owned by the sentinel
      is renamed to the question's name, every other record is kept. */
  function Restore(rr: ResourceRecord, sentinel: string, qname: string): ResourceRecord
  {
    if rr.rtype == CNAME && rr.name == sentinel then rr.(name := qname) else rr
  }

  function RestoreAll(records: seq<ResourceRecord>, sentinel: string, qname: string): seq<ResourceRecord>
  {
    seq(|records|, i requires 0 <= i < |records| => Restore(records[i], sentinel, qname))
  }

  /** The renaming loop, in place over the swapped-in answers. */
  method RestoreOwners(records: array<ResourceRecord>, sentinel: string, qname: string)
    modifies records
    ensures records[..] == RestoreAll(old(records[..]), sentinel, qname)
  {
    var i := 0;
    while i < records.Length
      invariant 0 <= i <= records.Length
      invariant forall k :: 0 <= k < i ==> records[k] == Restore(old(records[k]), sentinel, qname)
      invariant forall k :: i <= k < records.Length ==> records[k] == old(records[k])
    {
      if records[i].rtype == CNAME && records[i].name == sentinel {
        records[i] := records[i].(name := qname);
      }
      i := i + 1;
    }
  }

  /** The headers of a rewritten response: the upstream's, minus
      `content-length`, since the body is re-encoded. */
  method ResponseHeaders(upstream: HeaderMap) returns (out: HeaderMap)
    ensures out == upstream - {"content-length"}
  {
    var headers := new HeaderSet(upstream);
    headers.Delete("content-length");
    out := headers.entries;
  }

  /** The decision as a whole. `decoded` is the outcome of decoding the
      upstream's body (`None` when decoding throws), `cidrText` the body of
      the provider's list, `alias` the answers of the lookup of the
      sentinel's own A records (`None` when they are missing or the lookup
      throws). */
  function Decide(cfg: Config, decoded: Option<Message>, upstream: UpstreamResponse,
                  cidrText: string, alias: Option<seq<ResourceRecord>>): Outcome
  {
    if decoded.None? || !Eligible(decoded.value, cfg.sentinel) then Baseline
    else
      var m := decoded.value;
      if ProviderMatch(m.answers.value, Split(cidrText, '\n')) != Some(true) then Baseline
      else if alias.None? || |alias.value| == 0 then Baseline
      else
        Rewritten(m.(answers := Some(RestoreAll(alias.value, cfg.sentinel, m.questions.value[0].name))),
                  upstream.status, upstream.statusText, upstream.headers - {"content-length"})
  }

  /** `proxyRequest` from the point where both fetches have completed. */
  method ProxyRequest(cfg: Config, decoded: Option<Message>, upstream: UpstreamResponse,
                      cidrText: string, alias: Option<seq<ResourceRecord>>) returns (out: Outcome)
    ensures out == Decide(cfg, decoded, upstream, cidrText, alias)
  {
    var cidrList := Split(cidrText, '\n');
    if decoded.None? {
      return Baseline;
    }
    var packet := decoded.value;
    if packet.questions.None? {
      return Baseline;
    }
    if |packet.questions.value| != 1 {
      return Baseline;
    }
    if packet.answers.None? {
      return Baseline;
    }
    var question := packet.questions.value[0];
    if question.qtype != A {
      return Baseline;
    }
    if question.qclass != IN {
      return Baseline;
    }
    if question.name == cfg.sentinel {
      return Baseline;
    }
    var provider := DetectProvider(packet.answers.value, cidrList);
    if provider.None? {
      return Baseline;
    }
    if provider.value {
      if alias.None? || |alias.value| == 0 {
        return Baseline;
      }
      var aliasAnswers := alias.value;
      var records := new ResourceRecord[|aliasAnswers|](i requires 0 <= i < |aliasAnswers| => aliasAnswers[i]);
      assert records[..] == aliasAnswers;
      RestoreOwners(records, cfg.sentinel, question.name);
      var headers := ResponseHeaders(upstream.headers);
      return Rewritten(packet.(answers := Some(records[..])), upstream.status, upstream.statusText, headers);
    }
    return Baseline;
  }

  // ---------------------------------------------------------------------
  // Detection

  /** Detection depends on the answers and lines only as collections: the
      scan has no early exit, so their order does not matter. */
  lemma DetectionIgnoresOrder(answers1: seq<ResourceRecord>, answers2: seq<ResourceRecord>,
                              lines1: seq<string>, lines2: seq<string>)
    requires multiset(answers1) == multiset(answers2)
    requires multiset(lines1) == multiset(lines2)
    ensures ProviderMatch(answers1, lines1) == ProviderMatch(answers2, lines2)
  {
    assert forall rr :: rr in answers1 <==> rr in answers2 by {
      forall rr ensures rr in answers1 <==> rr in answers2 {
        assert rr in answers1 <==> rr in multiset(answers1);
        assert rr in answers2 <==> rr in multiset(answers2);
      }
    }
    assert forall line :: line in lines1 <==> line in lines2 by {
      forall line ensures line in lines1 <==> line in lines2 {
        assert line in lines1 <==> line in multiset(lines1);
        assert line in lines2 <==> line in multiset(lines2);
      }
    }
    assert AllRangesParse(lines1) == AllRangesParse(lines2);
    assert forall rr :: AnswerOutcome(rr, lines1) == AnswerOutcome(rr, lines2);
  }

  /** A record that is not of type A, inserted anywhere, changes nothing. */
  lemma NonAddressAnswersIgnored(before: seq<ResourceRecord>, rr: ResourceRecord,
                                 after: seq<ResourceRecord>, lines: seq<string>)
    requires rr.rtype != A
    ensures ProviderMatch(before + [rr] + after, lines) == ProviderMatch(before + after, lines)
  {
    var with, without := before + [rr] + after, before + after;
    assert forall x :: x in with <==> x in without || x == rr;
    assert AnswerOutcome(rr, lines) == Some(false);
  }

  /** Once there is an A answer, one malformed line in the list makes the
      scan throw, whatever the other lines say. */
  lemma MalformedLineAborts(answers: seq<ResourceRecord>, lines: seq<string>, k: nat)
    requires exists rr :: rr in answers && rr.rtype == A
    requires k < |lines| && ParseCidr(lines[k]).None?
    ensures ProviderMatch(answers, lines) == None
  {
    assert lines[k] in lines;
    var rr :| rr in answers && rr.rtype == A;
    assert AnswerOutcome(rr, lines).None?;
  }

  /** An A answer whose data is no dotted-decimal address makes the scan throw. */
  lemma MalformedAddressAborts(answers: seq<ResourceRecord>, lines: seq<string>, k: nat)
    requires k < |answers| && answers[k].rtype == A && ParseAddress(answers[k].data).None?
    ensures ProviderMatch(answers, lines) == None
  {
    assert answers[k] in answers;
    assert AnswerOutcome(answers[k], lines).None?;
  }

  /** With every A answer and every line well formed, the flag is set
      exactly when some A answer lies in some listed range. */
  lemma WellFormedDetection(answers: seq<ResourceRecord>, lines: seq<string>)
    requires forall rr :: rr in answers && rr.rtype == A ==> ParseAddress(rr.data).Some?
    requires forall line :: line in lines ==> ParseCidr(line).Some?
    ensures ProviderMatch(answers, lines) ==
      Some(exists rr, line :: rr in answers && line in lines && rr.rtype == A &&
                              InCidr(ParseAddress(rr.data).value, ParseCidr(line).value))
  {
  }

  /** The empty line is not a CIDR range. */
  lemma EmptyLineIsMalformed()
    ensures ParseCidr("") == None
  {
    assert Split("", '/') == [""];
  }

  /** A list body ending in a newline splits into a last, empty line; as
      soon as there is an A answer, detection throws. */
  lemma TrailingNewlineAborts(answers: seq<ResourceRecord>, cidrText: string)
    requires exists rr :: rr in answers && rr.rtype == A
    ensures ProviderMatch(answers, Split(cidrText + "\n", '\n')) == None
  {
    SplitTrailingSeparator(cidrText, '\n');
    var lines := Split(cidrText + "\n", '\n');
    EmptyLineIsMalformed();
    MalformedLineAborts(answers, lines, |lines| - 1);
  }

  // ---------------------------------------------------------------------
  // Renaming the alias answers

  /** Renaming keeps the length and order, changes only the owner name of
      the sentinel's CNAME records, and keeps every other field and record. */
  lemma RestoreAllChangesOnlySentinelOwners(records: seq<ResourceRecord>, sentinel: string, qname: string)
    ensures |RestoreAll(records, sentinel, qname)| == |records|
    ensures forall i :: 0 <= i < |records| ==>
      var before, after := records[i], RestoreAll(records, sentinel, qname)[i];
      && after.rtype == before.rtype && after.rclass == before.rclass
      && after.ttl == before.ttl && after.data == before.data
      && after.name == (if before.rtype == CNAME && before.name == sentinel then qname else before.name)
  {
  }

  /** With a question name other than the sentinel, no CNAME owned by the
      sentinel is left. */
  lemma NoSentinelOwnerRemains(records: seq<ResourceRecord>, sentinel: string, qname: string)
    requires qname != sentinel
    ensures forall rr :: rr in RestoreAll(records, sentinel, qname) ==> !(rr.rtype == CNAME && rr.name == sentinel)
  {
  }

  // ---------------------------------------------------------------------
  // The decision

  /** Every failed guard gives the untouched upstream response: no question
      list, not exactly one question, no answer list, a question not of
      type A, not of class IN, or asking for the sentinel itself. */
  lemma FailedGuardGivesBaseline(cfg: Config, m: Message, upstream: UpstreamResponse,
                                 cidrText: string, alias: Option<seq<ResourceRecord>>)
    requires || m.questions.None?
             || |m.questions.value| != 1
             || m.answers.None?
             || m.questions.value[0].qtype != A
             || m.questions.value[0].qclass != IN
             || m.questions.value[0].name == cfg.sentinel
    ensures Decide(cfg, Some(m), upstream, cidrText, alias) == Baseline
  {
  }

  /** The response is rewritten exactly when the message decoded, passed
      the guards, some A answer lies in a listed range with nothing thrown,
      and the alias lookup returned a non-empty answer list; in every other
      case it is the untouched upstream response. */
  lemma RewrittenExactlyWhen(cfg: Config, decoded: Option<Message>, upstream: UpstreamResponse,
                             cidrText: string, alias: Option<seq<ResourceRecord>>)
    ensures Decide(cfg, decoded, upstream, cidrText, alias).Rewritten? <==>
      && decoded.Some?
      && Eligible(decoded.value, cfg.sentinel)
      && ProviderMatch(decoded.value.answers.value, Split(cidrText, '\n')) == Some(true)
      && alias.Some? && |alias.value| > 0
    ensures !Decide(cfg, decoded, upstream, cidrText, alias).Rewritten? ==>
      Decide(cfg, decoded, upstream, cidrText, alias) == Baseline
  {
  }

  /** A trailing newline in the list body turns every rewrite off, because
      the empty last line fails to parse once any A answer is matched. */
  lemma TrailingNewlineGivesBaseline(cfg: Config, m: Message, upstream: UpstreamResponse,
                                     cidrText: string, alias: Option<seq<ResourceRecord>>)
    requires m.answers.Some? && exists rr :: rr in m.answers.value && rr.rtype == A
    ensures Decide(cfg, Some(m), upstream, cidrText + "\n", alias) == Baseline
  {
    TrailingNewlineAborts(m.answers.value, cidrText);
  }

  /** What a rewrite changes in the message: the answers become the alias
      answers, in the same order, with the sentinel's CNAME records renamed
      to the question's name; no such record is left; the questions and
      everything else are kept. */
  lemma RewriteReplacesAnswers(cfg: Config, m: Message, upstream: UpstreamResponse,
                               cidrText: string, alias: Option<seq<ResourceRecord>>)
    requires Decide(cfg, Some(m), upstream, cidrText, alias).Rewritten?
    ensures var out := Decide(cfg, Some(m), upstream, cidrText, alias).message;
      && m.questions.Some? && |m.questions.value| == 1 && alias.Some?
      && out.id == m.id && out.flags == m.flags && out.questions == m.questions
      && out.authorities == m.authorities && out.additionals == m.additionals
      && out.answers.Some? && |out.answers.value| == |alias.value|
      && (forall i :: 0 <= i < |alias.value| ==>
           var before, after := alias.value[i], out.answers.value[i];
           && after.rtype == before.rtype && after.rclass == before.rclass
           && after.ttl == before.ttl && after.data == before.data
           && after.name == (if before.rtype == CNAME && before.name == cfg.sentinel
                             then m.questions.value[0].name else before.name))
      && (forall rr :: rr in out.answers.value ==> !(rr.rtype == CNAME && rr.name == cfg.sentinel))
  {
    var qname := m.questions.value[0].name;
    RestoreAllChangesOnlySentinelOwners(alias.value, cfg.sentinel, qname);
    NoSentinelOwnerRemains(alias.value, cfg.sentinel, qname);
  }

  /** A rewritten response keeps the upstream's status and status text and
      all its headers but `content-length`. */
  lemma RewriteKeepsMetadata(cfg: Config, decoded: Option<Message>, upstream: UpstreamResponse,
                             cidrText: string, alias: Option<seq<ResourceRecord>>)
    requires Decide(cfg, decoded, upstream, cidrText, alias).Rewritten?
    ensures var out := Decide(cfg, decoded, upstream, cidrText, alias);
      && out.status == upstream.status && out.statusText == upstream.statusText
      && "content-length" !in out.headers
      && (forall h :: h in upstream.headers && h != "content-length" ==> h in out.headers && out.headers[h] == upstream.headers[h])
      && (forall h :: h in out.headers ==> h in upstream.headers)
  {
  }
}
