/** The decision for a question whose upstream answer is a single A record
    and whose range list is a single range, as the deployment publishes it. */
module Scenarios {

  import opened Wrappers
  import opened Text
  import opened Ipv4
  import opened Dns
  import opened Http
  import opened Settings
  import opened Rewrite

  /** A range written out by `FormatCidr` holds no line break, so it is a
      list of exactly one line. */
  lemma FormattedRangeIsOneLine(c: Cidr)
    ensures Split(FormatCidr(c), '\n') == [FormatCidr(c)]
  {
    var a := c.network;
    var parts := [OctetText(a / 16777216), OctetText((a / 65536) % 256),
                  OctetText((a / 256) % 256), OctetText(a % 256)];
    forall k | 0 <= k < 4 ensures '\n' !in parts[k] {
      DigitsAvoid(parts[k], '\n');
    }
    JoinAvoids(parts, '.', '\n');
    DigitsAvoid(OctetText(c.prefix), '\n');
    assert '\n' !in FormatCidr(c);
    SplitJoin([FormatCidr(c)], '\n');
  }

  /** One A answer carrying the text of `a`, against the one-line list
      holding `c`: the scan does not throw and reports a hit exactly when
      `a` lies in `c`. */
  lemma SingleAnswerDetection(rr: ResourceRecord, a: Addr, c: Cidr)
    requires rr.rtype == A && rr.data == FormatAddress(a)
    ensures ProviderMatch([rr], Split(FormatCidr(c), '\n')) == Some(InCidr(a, c))
  {
    FormattedRangeIsOneLine(c);
    AddressRoundTrip(a);
    CidrRoundTrip(c);
    var lines := [FormatCidr(c)];
    assert LineHits(a, FormatCidr(c)) == InCidr(a, c);
    assert AnswerOutcome(rr, lines) == Some(InCidr(a, c));
    assert forall x :: x in [rr] ==> x == rr;
  }

  /** For an eligible question with one A answer and a non-empty alias
      lookup, the response is rewritten exactly when the answer lies in the
      listed range, and it is then the alias answers with the sentinel's
      CNAME owners renamed and the upstream status and headers without
      `content-length`. */
  lemma SingleAnswerScenario(cfg: Config, m: Message, upstream: UpstreamResponse,
                             a: Addr, c: Cidr, alias: seq<ResourceRecord>)
    requires Eligible(m, cfg.sentinel) && |alias| > 0
    requires |m.answers.value| == 1 && m.answers.value[0].rtype == A
    requires m.answers.value[0].data == FormatAddress(a)
    ensures InCidr(a, c) ==>
      Decide(cfg, Some(m), upstream, FormatCidr(c), Some(alias)) ==
      Rewritten(m.(answers := Some(RestoreAll(alias, cfg.sentinel, m.questions.value[0].name))),
                upstream.status, upstream.statusText, upstream.headers - {"content-length"})
    ensures !InCidr(a, c) ==> Decide(cfg, Some(m), upstream, FormatCidr(c), Some(alias)) == Baseline
  {
    assert m.answers.value == [m.answers.value[0]];
    SingleAnswerDetection(m.answers.value[0], a, c);
  }

  /** 104.16.0.1 lies in 104.16.0.0/12; 8.8.8.8 does not. */
  lemma DeployedRangeExamples()
    ensures FromOctets(104, 16, 0, 0) == 0x68100000 && FromOctets(104, 16, 0, 1) == 0x68100001
    ensures FromOctets(8, 8, 8, 8) == 0x08080808
    ensures InCidr(0x68100001, Cidr(0x68100000, 12))
    ensures !InCidr(0x08080808, Cidr(0x68100000, 12))
  {
    Pow2Of32();
  }

  /** The renaming on the deployed sentinel: its CNAME now belongs to the
      question's name, and the target's A record is kept as it is. */
  lemma DeployedRenameExample()
    ensures
      RestoreAll([ResourceRecord(Deployed.sentinel, CNAME, IN, 60, "edge.example.net"),
                  ResourceRecord("edge.example.net", A, IN, 60, "93.184.216.34"),
                  ResourceRecord(Deployed.sentinel, A, IN, 60, "93.184.216.35")],
                 Deployed.sentinel, "www.example.com") ==
      [ResourceRecord("www.example.com", CNAME, IN, 60, "edge.example.net"),
       ResourceRecord("edge.example.net", A, IN, 60, "93.184.216.34"),
       ResourceRecord(Deployed.sentinel, A, IN, 60, "93.184.216.35")]
  {
    assert "edge.example.net" != Deployed.sentinel;
  }
}
