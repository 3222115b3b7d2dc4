/**
 Which address a request is attributed to: the server walks the forwarded chain from
 its own peer leftwards while the hops are trusted.
 */
module ForwardedFor {
  import opened Common

  // ----- Addresses -----

  type Bits32 = n: nat | n < 0x1_0000_0000
  type Bits128 = n: nat | n < 0x1_0000_0000_0000_0000_0000_0000_0000_0000

  /** An address as its numeric value. */
  datatype Ip = V4(address4: Bits32) | V6(address6: Bits128)

  /** An IPv4-mapped IPv6 address is the IPv4 address it maps. */
  function Canonical(a: Ip): Ip {
    if a.V6? && a.address6 / 0x1_0000_0000 == 0xFFFF then V4(a.address6 % 0x1_0000_0000) else a
  }

  /** IPv4 addresses stand for themselves, ::ffff:0:0/96 for the IPv4 address in it, and no other IPv6 address changes. */
  lemma CanonicalMeans(a: Ip)
    ensures a.V4? ==> Canonical(a) == a
    ensures a.V6? && 0xFFFF_0000_0000 <= a.address6 <= 0xFFFF_FFFF_FFFF ==> Canonical(a) == V4(a.address6 - 0xFFFF_0000_0000)
    ensures a.V6? && !(0xFFFF_0000_0000 <= a.address6 <= 0xFFFF_FFFF_FFFF) ==> Canonical(a) == a
  {
  }

  predicate Trusted(peer: Ip, trusted: seq<Ip>) {
    exists i :: 0 <= i < |trusted| && Canonical(trusted[i]) == Canonical(peer)
  }

  method IsTrustedProxyPeer(peer: Ip, trusted: seq<Ip>) returns (found: bool)
    ensures found <==> Trusted(peer, trusted)
  {
    for i := 0 to |trusted|
      invariant forall j :: 0 <= j < i ==> Canonical(trusted[j]) != Canonical(peer)
    {
      if Canonical(trusted[i]) == Canonical(peer) {
        return true;
      }
    }
    return false;
  }

  /** Parsing and printing of addresses, which are library code. */
  datatype Codec = Codec(parse: string -> Option<Ip>, show: Ip -> string)

  predicate Plain(s: string) {
    forall i :: 0 <= i < |s| ==> '!' <= s[i] <= '~' && s[i] != ','
  }

  /** Printing gives non-empty plain text that parses back. */
  ghost predicate Faithful(c: Codec) {
    forall a :: PrintsBack(c, a)
  }

  predicate PrintsBack(c: Codec, a: Ip) {
    c.show(a) != "" && Plain(c.show(a)) && c.parse(c.show(a)) == Some(a)
  }

  // ----- Text -----

  /** A header value, and whether it is text. */
  datatype Value = Text(text: string) | Binary

  predicate Blank(c: char) {
    c == ' ' || c == '\t'
  }

  function Trim(s: string): string {
    if s != "" && Blank(s[0]) then Trim(s[1..])
    else if s != "" && Blank(s[|s| - 1]) then Trim(s[..|s| - 1])
    else s
  }

  function Split(s: string): (pieces: seq<string>)
    ensures pieces != []
  {
    if s == "" then [""]
    else
      var rest := Split(s[1..]);
      if s[0] == ',' then [""] + rest else [[s[0]] + rest[0]] + rest[1..]
  }

  function Join(pieces: seq<string>): string {
    if pieces == [] then ""
    else if |pieces| == 1 then pieces[0]
    else pieces[0] + ", " + Join(pieces[1..])
  }

  /** The candidates of all values in order, as text. */
  function Hops(values: seq<Value>): seq<string> {
    if values == [] then []
    else
      var last := values[|values| - 1];
      Hops(values[..|values| - 1]) + if last.Text? then Split(last.text) else []
  }

  predicate Textual(values: seq<Value>) {
    forall i :: 0 <= i < |values| ==> values[i].Text?
  }

  function Address(c: Codec, candidate: string): Option<Ip> {
    var parsed := c.parse(Trim(candidate));
    if parsed.None? then None else Some(Canonical(parsed.value))
  }

  /** The pieces with commas between them. */
  function Glue(pieces: seq<string>): string {
    if pieces == [] then ""
    else if |pieces| == 1 then pieces[0]
    else pieces[0] + "," + Glue(pieces[1..])
  }

  lemma GlueCons(x: string, rest: seq<string>)
    requires rest != []
    ensures Glue([x] + rest) == x + "," + Glue(rest)
  {
    assert ([x] + rest)[1..] == rest;
  }

  lemma GlueLonger(c: char, rest: seq<string>)
    requires rest != []
    ensures Glue([[c] + rest[0]] + rest[1..]) == [c] + Glue(rest)
  {
    var longer := [[c] + rest[0]] + rest[1..];
    assert longer[1..] == rest[1..];
    if |rest| > 1 {
      assert [c] + rest[0] + "," + Glue(rest[1..]) == [c] + (rest[0] + "," + Glue(rest[1..]));
    }
  }

  predicate NoCommas(pieces: seq<string>) {
    forall i :: 0 <= i < |pieces| ==> ',' !in pieces[i]
  }

  /** Splitting takes a text apart at its commas, all of them and nothing else. */
  lemma {:induction false} SplitMeans(s: string)
    ensures Glue(Split(s)) == s && NoCommas(Split(s))
    decreases |s|
  {
    if s != "" {
      SplitMeans(s[1..]);
      var rest := Split(s[1..]);
      if s[0] == ',' {
        GlueCons("", rest);
        assert "" + "," + s[1..] == s;
      } else {
        GlueLonger(s[0], rest);
        assert [s[0]] + s[1..] == s;
      }
    }
  }

  predicate AllBlank(s: string) {
    forall i :: 0 <= i < |s| ==> s[i] == ' ' || s[i] == '\t'
  }

  /** Neither end of the text is a blank. */
  predicate Tight(s: string) {
    s != "" ==> s[0] != ' ' && s[0] != '\t' && s[|s| - 1] != ' ' && s[|s| - 1] != '\t'
  }

  /** `middle` is `s` without blanks at its ends. */
  predicate Strips(s: string, left: string, middle: string, right: string) {
    s == left + middle + right && AllBlank(left) && AllBlank(right) && Tight(middle)
  }

  /** Trimming takes blanks off both ends, all of them and nothing else. */
  lemma {:induction false} TrimMeans(s: string) returns (left: string, right: string)
    ensures Strips(s, left, Trim(s), right)
    decreases |s|
  {
    if s != "" && Blank(s[0]) {
      left, right := TrimMeans(s[1..]);
      StripsLeft(s, left, Trim(s), right);
      left := [s[0]] + left;
    } else if s != "" && Blank(s[|s| - 1]) {
      left, right := TrimMeans(s[..|s| - 1]);
      StripsRight(s, left, Trim(s), right);
      right := right + [s[|s| - 1]];
    } else {
      left, right := "", "";
      assert "" + s + "" == s;
    }
  }

  lemma StripsLeft(s: string, left: string, middle: string, right: string)
    requires s != "" && Blank(s[0]) && Strips(s[1..], left, middle, right)
    ensures Strips(s, [s[0]] + left, middle, right)
  {
    assert s == [s[0]] + s[1..];
  }

  lemma StripsRight(s: string, left: string, middle: string, right: string)
    requires s != "" && Blank(s[|s| - 1]) && Strips(s[..|s| - 1], left, middle, right)
    ensures Strips(s, left, middle, right + [s[|s| - 1]])
  {
    assert s == s[..|s| - 1] + [s[|s| - 1]];
  }

  // ----- The walk along the chain -----

  /** Where nothing is known yet, or the hop is trusted, the next candidate is asked for. */
  predicate Passable(current: Option<Ip>, trusted: seq<Ip>) {
    current.None? || Trusted(current.value, trusted)
  }

  /** From `current` leftwards while the hops are trusted; None when a needed candidate is no address. */
  function Walk(c: Codec, trusted: seq<Ip>, current: Option<Ip>, hops: seq<string>): Option<Ip>
    decreases |hops|
  {
    if hops == [] || !Passable(current, trusted) then current
    else
      var next := Address(c, hops[|hops| - 1]);
      if next.None? then None else Walk(c, trusted, next, hops[..|hops| - 1])
  }

  /** The walk ends while there are still candidates to its left. */
  predicate Stops(c: Codec, trusted: seq<Ip>, current: Option<Ip>, hops: seq<string>)
    decreases |hops|
  {
    && hops != []
    && (Passable(current, trusted) ==>
          var next := Address(c, hops[|hops| - 1]);
          next.None? || Stops(c, trusted, next, hops[..|hops| - 1]))
  }

  /** The same over header values: a value that is not text fails as soon as it is reached. */
  function WalkValues(c: Codec, trusted: seq<Ip>, current: Option<Ip>, values: seq<Value>): Option<Ip>
    decreases |values|
  {
    if values == [] then current
    else
      var last := values[|values| - 1];
      if last.Binary? then None
      else
        var next := Walk(c, trusted, current, Split(last.text));
        if Stops(c, trusted, current, Split(last.text)) then next
        else WalkValues(c, trusted, next, values[..|values| - 1])
  }

  datatype Config = Config(reverseProxy: bool, enabled: bool, trustForwarded: bool, proxies: seq<Ip>)

  predicate ReadsHeaders(config: Config) {
    config.reverseProxy && config.enabled && config.trustForwarded
  }

  function EffectiveClient(c: Codec, peer: Ip, values: seq<Value>, config: Config): Option<Ip> {
    if !ReadsHeaders(config) || !Trusted(Canonical(peer), config.proxies) then Some(Canonical(peer))
    else WalkValues(c, config.proxies, Some(Canonical(peer)), values)
  }

  /** The inner loop of both resolvers: the candidates of one value, from the right. */
  method WalkOneValue(c: Codec, trusted: seq<Ip>, start: Option<Ip>, text: string)
    returns (stopped: bool, reached: Option<Ip>)
    ensures reached == Walk(c, trusted, start, Split(text))
    ensures stopped == Stops(c, trusted, start, Split(text))
  {
    var pieces := Split(text);
    var current, k := start, |pieces|;
    assert pieces[..k] == pieces;
    while k > 0
      invariant 0 <= k <= |pieces|
      invariant Walk(c, trusted, current, pieces[..k]) == Walk(c, trusted, start, pieces)
      invariant Stops(c, trusted, current, pieces[..k]) == Stops(c, trusted, start, pieces)
    {
      if current.Some? {
        var trust := IsTrustedProxyPeer(current.value, trusted);
        if !trust {
          return true, current;
        }
      }
      k := k - 1;
      assert pieces[..k + 1][..k] == pieces[..k];
      current := Address(c, pieces[k]);
      if current.None? {
        return true, None;
      }
    }
    return false, current;
  }

  /** The outer loop of both resolvers: the values, from the last to the first. */
  method WalkAllValues(c: Codec, trusted: seq<Ip>, start: Option<Ip>, values: seq<Value>) returns (reached: Option<Ip>)
    ensures reached == WalkValues(c, trusted, start, values)
  {
    var current, v := start, |values|;
    assert values[..v] == values;
    while v > 0
      invariant 0 <= v <= |values|
      invariant WalkValues(c, trusted, current, values[..v]) == WalkValues(c, trusted, start, values)
    {
      v := v - 1;
      assert values[..v + 1][..v] == values[..v];
      if values[v].Binary? {
        return None;
      }
      var stopped;
      stopped, current := WalkOneValue(c, trusted, current, values[v].text);
      if stopped {
        return current;
      }
    }
    return current;
  }

  method ValidatedEffectiveClientIp(c: Codec, peer: Ip, values: seq<Value>, config: Config) returns (client: Option<Ip>)
    ensures client == EffectiveClient(c, peer, values, config)
    // Whatever the headers say, they are not read for other modes and other peers.
    ensures !config.reverseProxy || !config.enabled || !config.trustForwarded || !Trusted(Canonical(peer), config.proxies) ==>
      client == Some(Canonical(peer))
  {
    var trust := IsTrustedProxyPeer(Canonical(peer), config.proxies);
    if !config.reverseProxy || !config.enabled || !config.trustForwarded || !trust {
      return Some(Canonical(peer));
    }
    client := WalkAllValues(c, config.proxies, Some(Canonical(peer)), values);
  }

  /** Behind a verified proxy there is no peer address: the walk starts at the last candidate. */
  method ValidatedProxyClientIp(c: Codec, values: seq<Value>, trusted: seq<Ip>) returns (client: Option<Ip>)
    ensures client == WalkValues(c, trusted, None, values)
  {
    client := WalkAllValues(c, trusted, None, values);
  }

  // ----- What the walk finds -----

  /** Hop `k` of the chain, where the hop after the last candidate is the peer, if there is one. */
  function Hop(c: Codec, peer: Option<Ip>, hops: seq<string>, k: int): Option<Ip>
    requires 0 <= k <= |hops|
  {
    if k == |hops| then peer else Address(c, hops[k])
  }

  predicate TrustedHop(c: Codec, trusted: seq<Ip>, peer: Option<Ip>, hops: seq<string>, k: int)
    requires 0 <= k <= |hops|
  {
    if k == |hops| then Passable(peer, trusted)
    else Hop(c, peer, hops, k).Some? && Trusted(Hop(c, peer, hops, k).value, trusted)
  }

  /** Hop `k` is where the walk ends: all to its right are trusted, and it is not or is the leftmost. */
  predicate EndsAt(c: Codec, trusted: seq<Ip>, peer: Option<Ip>, hops: seq<string>, k: int)
    requires 0 <= k <= |hops|
  {
    && (forall j :: k < j <= |hops| ==> TrustedHop(c, trusted, peer, hops, j))
    && (k == 0 || !TrustedHop(c, trusted, peer, hops, k))
  }

  /** The walk yields the rightmost hop that is not trusted, or the leftmost one. */
  lemma {:induction false} WalkFindsRightmostUntrusted(c: Codec, trusted: seq<Ip>, peer: Option<Ip>, hops: seq<string>, k: int)
    requires 0 <= k <= |hops| && EndsAt(c, trusted, peer, hops, k)
    ensures Walk(c, trusted, peer, hops) == Hop(c, peer, hops, k)
    decreases |hops|
  {
    assert TrustedHop(c, trusted, peer, hops, |hops|) <==> Passable(peer, trusted);
    if k < |hops| {
      var front, next := hops[..|hops| - 1], Address(c, hops[|hops| - 1]);
      assert TrustedHop(c, trusted, peer, hops, |hops|);
      if next.Some? {
        assert forall j :: 0 <= j < |hops| ==> Hop(c, next, front, j) == Hop(c, peer, hops, j);
        assert forall j :: 0 <= j < |hops| ==>
          TrustedHop(c, trusted, next, front, j) == TrustedHop(c, trusted, peer, hops, j);
        WalkFindsRightmostUntrusted(c, trusted, next, front, k);
      } else {
        assert !TrustedHop(c, trusted, peer, hops, |hops| - 1);
      }
    }
  }

  /** There is always exactly one such hop. */
  lemma WalkEndsSomewhere(c: Codec, trusted: seq<Ip>, peer: Option<Ip>, hops: seq<string>) returns (k: int)
    ensures 0 <= k <= |hops| && EndsAt(c, trusted, peer, hops, k)
    ensures forall j :: 0 <= j <= |hops| && EndsAt(c, trusted, peer, hops, j) ==> j == k
  {
    k := |hops|;
    while k > 0 && TrustedHop(c, trusted, peer, hops, k)
      invariant 0 <= k <= |hops|
      invariant forall j :: k < j <= |hops| ==> TrustedHop(c, trusted, peer, hops, j)
    {
      k := k - 1;
    }
  }

  /** What stands to the left of an untrusted hop the walk ends at is never looked at. */
  lemma LeftPartIsIrrelevant(c: Codec, trusted: seq<Ip>, peer: Option<Ip>, left: seq<string>, hops: seq<string>, k: int)
    requires 0 <= k <= |hops| && EndsAt(c, trusted, peer, hops, k) && !TrustedHop(c, trusted, peer, hops, k)
    ensures Walk(c, trusted, peer, left + hops) == Hop(c, peer, hops, k)
  {
    var all := left + hops;
    forall j | 0 <= j <= |hops|
      ensures Hop(c, peer, all, |left| + j) == Hop(c, peer, hops, j)
      ensures TrustedHop(c, trusted, peer, all, |left| + j) == TrustedHop(c, trusted, peer, hops, j)
    {
    }
    forall j | |left| + k < j <= |all| ensures TrustedHop(c, trusted, peer, all, j) {
      assert TrustedHop(c, trusted, peer, hops, j - |left|);
    }
    WalkFindsRightmostUntrusted(c, trusted, peer, all, |left| + k);
  }

  // ----- Values and the flattened chain -----

  lemma {:induction false} WalkConcat(c: Codec, trusted: seq<Ip>, current: Option<Ip>, left: seq<string>, right: seq<string>)
    ensures Walk(c, trusted, current, left + right) ==
      if Stops(c, trusted, current, right) then Walk(c, trusted, current, right)
      else Walk(c, trusted, Walk(c, trusted, current, right), left)
    ensures Stops(c, trusted, current, left + right) ==
      (Stops(c, trusted, current, right) || Stops(c, trusted, Walk(c, trusted, current, right), left))
    decreases |right|
  {
    if right == [] {
      assert left + right == left;
    } else if Passable(current, trusted) && Address(c, right[|right| - 1]).Some? {
      assert (left + right)[..|left + right| - 1] == left + right[..|right| - 1];
      WalkConcat(c, trusted, Address(c, right[|right| - 1]), left, right[..|right| - 1]);
    }
  }

  /** On text, walking the values is walking the flattened chain. */
  lemma {:induction false} ValuesAreChain(c: Codec, trusted: seq<Ip>, current: Option<Ip>, values: seq<Value>)
    requires Textual(values)
    ensures WalkValues(c, trusted, current, values) == Walk(c, trusted, current, Hops(values))
    decreases |values|
  {
    if values != [] {
      var front, pieces := values[..|values| - 1], Split(values[|values| - 1].text);
      WalkConcat(c, trusted, current, Hops(front), pieces);
      ValuesAreChain(c, trusted, Walk(c, trusted, current, pieces), front);
    }
  }

  /** The resolved client of a textual chain is its rightmost untrusted hop, or its leftmost one. */
  lemma ClientIsRightmostUntrusted(c: Codec, peer: Ip, values: seq<Value>, config: Config, k: int)
    requires Textual(values) && ReadsHeaders(config)
    requires 0 <= k <= |Hops(values)| && EndsAt(c, config.proxies, Some(Canonical(peer)), Hops(values), k)
    ensures EffectiveClient(c, peer, values, config) == Hop(c, Some(Canonical(peer)), Hops(values), k)
  {
    var start, hops := Some(Canonical(peer)), Hops(values);
    ValuesAreChain(c, config.proxies, start, values);
    WalkFindsRightmostUntrusted(c, config.proxies, start, hops, k);
    assert TrustedHop(c, config.proxies, start, hops, |hops|) <==> Passable(start, config.proxies);
  }

  /** The walk passes every hop and arrives at the leftmost one, or there is none. */
  predicate ArrivesLeftmost(c: Codec, trusted: seq<Ip>, peer: Option<Ip>, hops: seq<string>) {
    EndsAt(c, trusted, peer, hops, 0) && (hops == [] || Hop(c, peer, hops, 0).Some?)
  }

  /** The walk leaves candidates aside exactly unless it arrives at the leftmost hop. */
  lemma {:induction false} StopsExactly(c: Codec, trusted: seq<Ip>, peer: Option<Ip>, hops: seq<string>)
    ensures Stops(c, trusted, peer, hops) <==> !ArrivesLeftmost(c, trusted, peer, hops)
    decreases |hops|
  {
    if hops != [] {
      var front, next := hops[..|hops| - 1], Address(c, hops[|hops| - 1]);
      assert TrustedHop(c, trusted, peer, hops, |hops|) <==> Passable(peer, trusted);
      assert forall j :: 0 <= j < |hops| ==> Hop(c, next, front, j) == Hop(c, peer, hops, j);
      if next.Some? {
        assert forall j :: 0 <= j < |hops| ==>
          TrustedHop(c, trusted, next, front, j) == TrustedHop(c, trusted, peer, hops, j);
        StopsExactly(c, trusted, next, front);
      } else {
        assert |hops| > 1 ==> !TrustedHop(c, trusted, peer, hops, |hops| - 1);
      }
    }
  }

  lemma {:induction false} BinaryValueEndsWalk(c: Codec, trusted: seq<Ip>, current: Option<Ip>, left: seq<Value>, right: seq<Value>)
    requires Textual(right)
    ensures WalkValues(c, trusted, current, left + [Binary] + right) ==
      if Stops(c, trusted, current, Hops(right)) then Walk(c, trusted, current, Hops(right)) else None
    decreases |right|
  {
    var all := left + [Binary] + right;
    if right == [] {
      assert all[|all| - 1] == Binary;
    } else {
      var front, pieces := right[..|right| - 1], Split(right[|right| - 1].text);
      assert all[..|all| - 1] == left + [Binary] + front;
      WalkConcat(c, trusted, current, Hops(front), pieces);
      BinaryValueEndsWalk(c, trusted, Walk(c, trusted, current, pieces), left, front);
    }
  }

  /**
   A value that is not text is the exception: with textual values to its right, the
   request is refused exactly when every hop but the leftmost of those is trusted and the
   leftmost is an address, whether or not that address is trusted, or when a hop the walk
   needs is no address.
   */
  lemma BinaryValueRefuses(c: Codec, trusted: seq<Ip>, current: Option<Ip>, left: seq<Value>, right: seq<Value>)
    requires Textual(right)
    ensures WalkValues(c, trusted, current, left + [Binary] + right) ==
      if ArrivesLeftmost(c, trusted, current, Hops(right)) then None else Walk(c, trusted, current, Hops(right))
  {
    BinaryValueEndsWalk(c, trusted, current, left, right);
    StopsExactly(c, trusted, current, Hops(right));
  }

  // ----- A binary value in front of one printed address -----

  lemma {:induction false} SplitAtComma(x: string, rest: string)
    requires Plain(x)
    ensures Split(x + "," + rest) == [x] + Split(rest)
    ensures Split(x) == [x]
    decreases |x|
  {
    if x == "" {
      assert x + "," + rest == "," + rest;
    } else {
      assert (x + "," + rest)[1..] == x[1..] + "," + rest;
      assert (x + "," + rest)[0] == x[0] != ',';
      SplitAtComma(x[1..], rest);
      assert [x[0]] + x[1..] == x;
    }
  }

  lemma TrimPlain(x: string)
    requires x != "" && Plain(x)
    ensures Trim(x) == x && Trim(" " + x) == x
  {
    assert (" " + x)[1..] == x;
  }

  /** A printed address is one candidate, and stands for itself. */
  lemma PrintedHop(c: Codec, a: Ip)
    requires Faithful(c)
    ensures Hops([Text(c.show(a))]) == [c.show(a)] && Address(c, c.show(a)) == Some(Canonical(a))
  {
    assert PrintsBack(c, a);
    var values := [Text(c.show(a))];
    assert values[..0] == [];
    SplitAtComma(c.show(a), "");
    TrimPlain(c.show(a));
  }

  /**
   Any untrusted client whose address is the only hop of a trusted peer's request is the
   effective client, but the request is refused once a binary value stands to its left.
   */
  lemma BinaryValueHidesUntrustedHop(c: Codec, config: Config, peer: Ip, client: Ip)
    requires Faithful(c) && ReadsHeaders(config)
    requires Trusted(Canonical(peer), config.proxies) && !Trusted(Canonical(client), config.proxies)
    ensures EffectiveClient(c, peer, [Text(c.show(client))], config) == Some(Canonical(client))
    ensures EffectiveClient(c, peer, [Binary, Text(c.show(client))], config) == None
  {
    var values, start := [Text(c.show(client))], Some(Canonical(peer));
    PrintedHop(c, client);
    ClientIsRightmostUntrusted(c, peer, values, config, 0);
    assert [] + [Binary] + values == [Binary, Text(c.show(client))];
    BinaryValueRefuses(c, config.proxies, start, [], values);
  }

  /** Two addresses for which that happens. */
  lemma HiddenHopExample(c: Codec, config: Config)
    requires Faithful(c) && ReadsHeaders(config) && config.proxies == [V4(1)]
    ensures EffectiveClient(c, V4(1), [Text(c.show(V4(2)))], config) == Some(V4(2))
    ensures EffectiveClient(c, V4(1), [Binary, Text(c.show(V4(2)))], config) == None
  {
    assert Canonical(config.proxies[0]) == V4(1);
    BinaryValueHidesUntrustedHop(c, config, V4(1), V4(2));
  }
}
