/**
 The container proxy in front of the server rewrites the forwarded chain before it
 passes a request on.  The rewrite is proved not to change which client the server
 attributes the request to.
 */
module ContainerProxy {
  import opened Common
  import opened ForwardedFor

  type Headers = map<string, seq<Value>>

  const X_FORWARDED_FOR := "x-forwarded-for"

  function Forwarded(headers: Headers): seq<Value> {
    if X_FORWARDED_FOR in headers then headers[X_FORWARDED_FOR] else []
  }

  /** Building a header value: control characters are refused, and only ASCII reads back as text. */
  function MakeValue(s: string): Option<Value> {
    if exists i :: 0 <= i < |s| && ((s[i] < ' ' && s[i] != '\t') || s[i] == '\U{7F}') then None
    else if forall i :: 0 <= i < |s| ==> s[i] <= '~' then Some(Text(s))
    else Some(Binary)
  }

  datatype Policy = Policy(trusted: set<Ip>, trustForwarded: bool)

  /** The proxy's own view of the configuration. */
  function PolicyOf(config: Config): Policy {
    var trust := ReadsHeaders(config);
    Policy(if trust then set i | 0 <= i < |config.proxies| :: Canonical(config.proxies[i]) else {}, trust)
  }

  predicate Trusts(policy: Policy, peer: Ip) {
    policy.trustForwarded && Canonical(peer) in policy.trusted
  }

  /** Every candidate is an address. */
  predicate AllAddresses(c: Codec, hops: seq<string>) {
    forall i :: 0 <= i < |hops| ==> Trim(hops[i]) != "" && Address(c, hops[i]).Some?
  }

  /** The candidates printed in canonical form. */
  function Printed(c: Codec, hops: seq<string>): seq<string>
    requires AllAddresses(c, hops)
  {
    seq(|hops|, i requires 0 <= i < |hops| => c.show(Address(c, hops[i]).value))
  }

  function Kept(headers: Headers, trusted: bool): seq<Value> {
    if trusted then Forwarded(headers) else []
  }

  /** The chain is passed on in canonical form with the peer added, or refused with the headers untouched. */
  method SanitizeForwardingHeaders(c: Codec, headers: Headers, peer: Ip, trusted: bool) returns (ok: bool, updated: Headers)
    requires Faithful(c)
    ensures ok <==> Textual(Kept(headers, trusted)) && AllAddresses(c, Hops(Kept(headers, trusted)))
    ensures ok ==> updated == (headers - {"forwarded", X_FORWARDED_FOR, "connection"})
      [X_FORWARDED_FOR := [Text(Join(Printed(c, Hops(Kept(headers, trusted))) + [c.show(Canonical(peer))]))]]
    ensures !ok ==> updated == headers
  {
    var values := Kept(headers, trusted);
    var collected := CollectForwarded(c, values);
    if collected.None? {
      return false, headers;
    }
    var forwarded := collected.value + [c.show(Canonical(peer))];
    JoinIsText(c, Hops(values), Canonical(peer));
    updated := headers - {"forwarded", X_FORWARDED_FOR, "connection"};
    updated := updated[X_FORWARDED_FOR := [MakeValue(Join(forwarded)).value]];
    ok := true;
  }

  /** The first `k` candidates printed and added to `start`, unless one is no address. */
  function CollectPieces(c: Codec, start: seq<string>, pieces: seq<string>, k: nat): Option<seq<string>>
    requires k <= |pieces|
  {
    if k == 0 then Some(start)
    else
      var before, candidate := CollectPieces(c, start, pieces, k - 1), pieces[k - 1];
      if before.None? || Trim(candidate) == "" || Address(c, candidate).None? then None
      else Some(before.value + [c.show(Address(c, candidate).value)])
  }

  /** The candidates of the first `v` values printed, unless one is no address or a value is no text. */
  function CollectValues(c: Codec, values: seq<Value>, v: nat): Option<seq<string>>
    requires v <= |values|
  {
    if v == 0 then Some([])
    else
      var before := CollectValues(c, values, v - 1);
      if before.None? || values[v - 1].Binary? then None
      else
        var pieces := Split(values[v - 1].text);
        CollectPieces(c, before.value, pieces, |pieces|)
  }

  lemma {:induction false} PiecesStop(c: Codec, start: seq<string>, pieces: seq<string>, k: nat, n: nat)
    requires k <= n <= |pieces| && CollectPieces(c, start, pieces, k).None?
    ensures CollectPieces(c, start, pieces, n).None?
    decreases n
  {
    if k < n {
      PiecesStop(c, start, pieces, k, n - 1);
    }
  }

  lemma {:induction false} ValuesStop(c: Codec, values: seq<Value>, v: nat, n: nat)
    requires v <= n <= |values| && CollectValues(c, values, v).None?
    ensures CollectValues(c, values, n).None?
    decreases n
  {
    if v < n {
      ValuesStop(c, values, v, n - 1);
    }
  }

  /** The outer loop: the values in order. */
  method CollectForwarded(c: Codec, values: seq<Value>) returns (collected: Option<seq<string>>)
    ensures collected.Some? <==> Textual(values) && AllAddresses(c, Hops(values))
    ensures collected.Some? ==> collected.value == Printed(c, Hops(values))
  {
    var forwarded: seq<string> := [];
    CollectedIsPrinted(c, values);
    for v := 0 to |values|
      invariant CollectValues(c, values, v) == Some(forwarded)
    {
      if values[v].Binary? {
        ValuesStop(c, values, v + 1, |values|);
        return None;
      }
      var more := AppendCandidates(c, forwarded, Split(values[v].text));
      if more.None? {
        ValuesStop(c, values, v + 1, |values|);
        return None;
      }
      forwarded := more.value;
    }
    return Some(forwarded);
  }

  /** The inner loop: the candidates of one value, from the left. */
  method AppendCandidates(c: Codec, start: seq<string>, pieces: seq<string>) returns (grown: Option<seq<string>>)
    ensures grown == CollectPieces(c, start, pieces, |pieces|)
  {
    var forwarded := start;
    for k := 0 to |pieces|
      invariant CollectPieces(c, start, pieces, k) == Some(forwarded)
    {
      var address := Address(c, pieces[k]);
      if Trim(pieces[k]) == "" || address.None? {
        PiecesStop(c, start, pieces, k + 1, |pieces|);
        return None;
      }
      forwarded := forwarded + [c.show(address.value)];
    }
    return Some(forwarded);
  }

  /** Collecting succeeds with the printed chain exactly when every candidate is an address. */
  predicate IsPrinted(c: Codec, hops: seq<string>, collected: Option<seq<string>>) {
    && (collected.Some? <==> AllAddresses(c, hops))
    && (collected.Some? ==> collected.value == Printed(c, hops))
  }

  lemma PrintedAppend(c: Codec, hops: seq<string>, candidate: string)
    requires AllAddresses(c, hops)
    ensures AllAddresses(c, hops + [candidate]) <==> Trim(candidate) != "" && Address(c, candidate).Some?
    ensures AllAddresses(c, hops + [candidate]) ==>
      Printed(c, hops + [candidate]) == Printed(c, hops) + [c.show(Address(c, candidate).value)]
  {
    var all := hops + [candidate];
    assert all[|hops|] == candidate && forall i :: 0 <= i < |hops| ==> all[i] == hops[i];
  }

  lemma BadHopStays(c: Codec, hops: seq<string>, more: seq<string>)
    requires !AllAddresses(c, hops)
    ensures !AllAddresses(c, hops + more)
  {
    var i :| 0 <= i < |hops| && !(Trim(hops[i]) != "" && Address(c, hops[i]).Some?);
    assert (hops + more)[i] == hops[i];
  }

  lemma {:induction false} PiecesArePrinted(c: Codec, hops: seq<string>, pieces: seq<string>, k: nat)
    requires AllAddresses(c, hops) && k <= |pieces|
    ensures IsPrinted(c, hops + pieces[..k], CollectPieces(c, Printed(c, hops), pieces, k))
    decreases k
  {
    if k == 0 {
      assert hops + pieces[..k] == hops;
    } else {
      PiecesArePrinted(c, hops, pieces, k - 1);
      var before := hops + pieces[..k - 1];
      assert hops + pieces[..k] == before + [pieces[k - 1]];
      if AllAddresses(c, before) {
        PrintedAppend(c, before, pieces[k - 1]);
      } else {
        BadHopStays(c, before, [pieces[k - 1]]);
      }
    }
  }

  lemma HopsAppend(values: seq<Value>, v: nat)
    requires v < |values| && values[v].Text?
    ensures Hops(values[..v + 1]) == Hops(values[..v]) + Split(values[v].text)
  {
    assert values[..v + 1][..v] == values[..v];
  }

  /** What has been collected from the first `v` values. */
  ghost predicate CollectedUpTo(c: Codec, values: seq<Value>, v: nat)
    requires v <= |values|
  {
    if Textual(values[..v]) then IsPrinted(c, Hops(values[..v]), CollectValues(c, values, v))
    else CollectValues(c, values, v).None?
  }

  lemma CollectedNext(c: Codec, values: seq<Value>, v: nat)
    requires v < |values| && CollectedUpTo(c, values, v)
    ensures CollectedUpTo(c, values, v + 1)
  {
    var now, then' := values[..v], values[..v + 1];
    assert Textual(then') <==> Textual(now) && values[v].Text? by {
      assert then' == now + [values[v]];
    }
    if Textual(then') {
      var pieces := Split(values[v].text);
      HopsAppend(values, v);
      if AllAddresses(c, Hops(now)) {
        PiecesArePrinted(c, Hops(now), pieces, |pieces|);
        assert pieces[..|pieces|] == pieces;
      } else {
        BadHopStays(c, Hops(now), pieces);
      }
    }
  }

  lemma {:induction false} CollectedSoFar(c: Codec, values: seq<Value>, v: nat)
    requires v <= |values|
    ensures CollectedUpTo(c, values, v)
    decreases v
  {
    if v > 0 {
      CollectedSoFar(c, values, v - 1);
      CollectedNext(c, values, v - 1);
    }
  }

  lemma CollectedIsPrinted(c: Codec, values: seq<Value>)
    ensures CollectValues(c, values, |values|).Some? <==> Textual(values) && AllAddresses(c, Hops(values))
    ensures CollectValues(c, values, |values|).Some? ==> CollectValues(c, values, |values|).value == Printed(c, Hops(values))
  {
    CollectedSoFar(c, values, |values|);
    assert values[..|values|] == values;
  }

  // ----- The printed chain reads back -----

  /** Non-empty plain pieces. */
  predicate AllPlain(pieces: seq<string>) {
    forall i :: 0 <= i < |pieces| ==> pieces[i] != "" && Plain(pieces[i])
  }

  /** A leading blank only ends up in the first piece. */
  lemma SplitBlank(rest: string)
    ensures Split(" " + rest) == [" " + Split(rest)[0]] + Split(rest)[1..]
  {
    assert (" " + rest)[1..] == rest;
    assert [' '] == " ";
  }

  /** Joining one more piece in front puts it in front of the split text. */
  lemma SplitJoined(x: string, text: string)
    requires Plain(x)
    ensures Split(x + ", " + text) == [x, " " + Split(text)[0]] + Split(text)[1..]
  {
    SplitBlank(text);
    SplitAtComma(x, " " + text);
    Separator(x, text);
  }

  lemma Separator(x: string, text: string)
    ensures x + ", " + text == x + "," + (" " + text)
  {
  }

  /** Splitting and trimming undoes joining. */
  lemma {:induction false} SplitJoin(pieces: seq<string>)
    requires pieces != [] && AllPlain(pieces)
    ensures |Split(Join(pieces))| == |pieces|
    ensures Split(Join(pieces))[0] == pieces[0]
    ensures forall i :: 0 <= i < |pieces| ==> Trim(Split(Join(pieces))[i]) == pieces[i]
    decreases |pieces|
  {
    TrimPlain(pieces[0]);
    if |pieces| == 1 {
      SplitAtComma(pieces[0], "");
    } else {
      var rest := pieces[1..];
      SplitJoin(rest);
      SplitJoined(pieces[0], Join(rest));
      TrimPlain(rest[0]);
      TrimsTo(Split(Join(pieces)), Split(Join(rest)), pieces);
    }
  }

  lemma TrimsTo(split: seq<string>, rest: seq<string>, pieces: seq<string>)
    requires |pieces| > 1 && |rest| == |pieces| - 1 && split == [pieces[0], " " + rest[0]] + rest[1..]
    requires Trim(pieces[0]) == pieces[0] && Trim(" " + rest[0]) == pieces[1]
    requires forall i :: 0 <= i < |rest| ==> Trim(rest[i]) == pieces[1..][i]
    ensures |split| == |pieces| && forall i :: 0 <= i < |pieces| ==> Trim(split[i]) == pieces[i]
  {
    forall i | 0 <= i < |pieces| ensures Trim(split[i]) == pieces[i] {
      assert i > 1 ==> split[i] == rest[i - 1];
    }
  }

  predicate TextOnly(s: string) {
    forall i :: 0 <= i < |s| ==> ' ' <= s[i] <= '~'
  }

  lemma {:induction false} JoinTextOnly(pieces: seq<string>)
    requires AllPlain(pieces)
    ensures TextOnly(Join(pieces))
    decreases |pieces|
  {
    if |pieces| > 1 {
      JoinTextOnly(pieces[1..]);
    }
  }

  lemma PrintedPlain(c: Codec, hops: seq<string>, peer: Ip)
    requires Faithful(c) && AllAddresses(c, hops)
    ensures AllPlain(Printed(c, hops) + [c.show(peer)])
  {
    var pieces := Printed(c, hops) + [c.show(peer)];
    forall i | 0 <= i < |pieces| ensures pieces[i] != "" && Plain(pieces[i]) {
      if i < |hops| {
        assert PrintsBack(c, Address(c, hops[i]).value);
      } else {
        assert PrintsBack(c, peer);
      }
    }
  }

  lemma JoinIsText(c: Codec, hops: seq<string>, peer: Ip)
    requires Faithful(c) && AllAddresses(c, hops)
    ensures MakeValue(Join(Printed(c, hops) + [c.show(peer)])) == Some(Text(Join(Printed(c, hops) + [c.show(peer)])))
  {
    PrintedPlain(c, hops, peer);
    JoinTextOnly(Printed(c, hops) + [c.show(peer)]);
  }

  // ----- The rewrite preserves the client -----

  lemma CanonicalTwice(a: Ip)
    ensures Canonical(Canonical(a)) == Canonical(a)
  {
  }

  /** The proxy and the server agree on whom to trust. */
  lemma TrustsIsTrusted(config: Config, peer: Ip)
    requires ReadsHeaders(config)
    ensures Trusts(PolicyOf(config), peer) <==> Trusted(Canonical(peer), config.proxies)
  {
    CanonicalTwice(peer);
  }

  /** The walk only depends on the addresses the candidates stand for. */
  lemma {:induction false} WalkByAddress(c: Codec, trusted: seq<Ip>, current: Option<Ip>, hops: seq<string>, others: seq<string>)
    requires |hops| == |others| && forall i :: 0 <= i < |hops| ==> Address(c, hops[i]) == Address(c, others[i])
    ensures Walk(c, trusted, current, hops) == Walk(c, trusted, current, others)
    decreases |hops|
  {
    if hops != [] {
      WalkByAddress(c, trusted, Address(c, hops[|hops| - 1]), hops[..|hops| - 1], others[..|hops| - 1]);
    }
  }

  lemma ReadsBack(c: Codec, text: string, a: Ip)
    requires Faithful(c) && Trim(text) == c.show(a) && Canonical(a) == a
    ensures Address(c, text) == Some(a)
  {
    assert PrintsBack(c, a);
  }

  /** The rewritten value stands for the original chain followed by the peer. */
  lemma RewrittenChain(c: Codec, hops: seq<string>, peer: Ip)
    requires Faithful(c) && AllAddresses(c, hops)
    ensures var value := Split(Join(Printed(c, hops) + [c.show(Canonical(peer))]));
      && |value| == |hops| + 1
      && (forall i :: 0 <= i < |hops| ==> Address(c, value[i]) == Address(c, hops[i]))
      && Address(c, value[|hops|]) == Some(Canonical(peer))
  {
    var pieces := Printed(c, hops) + [c.show(Canonical(peer))];
    PrintedPlain(c, hops, Canonical(peer));
    SplitJoin(pieces);
    var value := Split(Join(pieces));
    forall i | 0 <= i < |hops| ensures Address(c, value[i]) == Address(c, hops[i]) {
      var a := Address(c, hops[i]).value;
      CanonicalTwice(c.parse(Trim(hops[i])).value);
      assert Trim(value[i]) == pieces[i] == c.show(a);
      ReadsBack(c, value[i], a);
    }
    CanonicalTwice(peer);
    assert Trim(value[|hops|]) == c.show(Canonical(peer));
    ReadsBack(c, value[|hops|], Canonical(peer));
  }

  lemma WalkRewritten(c: Codec, trusted: seq<Ip>, loopback: Ip, hops: seq<string>, peer: Ip)
    requires Faithful(c) && AllAddresses(c, hops) && Trusted(loopback, trusted)
    ensures Walk(c, trusted, Some(loopback), Split(Join(Printed(c, hops) + [c.show(Canonical(peer))]))) ==
      Walk(c, trusted, Some(Canonical(peer)), hops)
  {
    RewrittenChain(c, hops, peer);
    var value := Split(Join(Printed(c, hops) + [c.show(Canonical(peer))]));
    WalkByAddress(c, trusted, Some(Canonical(peer)), value[..|hops|], hops);
  }

  lemma SingleValue(c: Codec, trusted: seq<Ip>, current: Option<Ip>, text: string)
    ensures WalkValues(c, trusted, current, [Text(text)]) == Walk(c, trusted, current, Split(text))
  {
    var values := [Text(text)];
    assert values[..0] == [] && Hops(values[..0]) == [];
    ValuesAreChain(c, trusted, current, values);
    assert Hops(values) == Hops(values[..0]) + Split(text);
  }

  /** A request passed on by the proxy gets the client it would have got directly. */
  method PassOn(c: Codec, headers: Headers, peer: Ip, config: Config, loopback: Ip) returns (ok: bool, updated: Headers)
    requires Faithful(c) && ReadsHeaders(config) && Trusted(Canonical(loopback), config.proxies)
    ensures ok ==>
      EffectiveClient(c, loopback, Forwarded(updated), config) == EffectiveClient(c, peer, Forwarded(headers), config)
    ensures
      var kept := Kept(headers, Trusts(PolicyOf(config), peer));
      ok <==> Textual(kept) && AllAddresses(c, Hops(kept))
    ensures !Trusts(PolicyOf(config), peer) ==> ok
  {
    var trust := Trusts(PolicyOf(config), peer);
    ok, updated := SanitizeForwardingHeaders(c, headers, peer, trust);
    TrustsIsTrusted(config, peer);
    if ok {
      var hops := Hops(Kept(headers, trust));
      WalkRewritten(c, config.proxies, Canonical(loopback), hops, peer);
      SingleValue(c, config.proxies, Some(Canonical(loopback)), Join(Printed(c, hops) + [c.show(Canonical(peer))]));
      ValuesAreChain(c, config.proxies, Some(Canonical(peer)), Kept(headers, trust));
    }
  }
}
