/**
 The stored form of a WebAuthn credential: a version byte, three length-prefixed
 components and three of fixed size.  Reading and writing are proved to be inverse to
 each other, so the format is canonical and self-delimiting.
 */
module CredentialBlob {
  import opened Common

  datatype Result<+T> = Ok(value: T) | Err(error: Error)

  datatype Error = Truncated | UnsupportedVersion | BadComponent | TrailingData | TooLarge

  type Bytes = seq<Byte>

  const VERSION: Byte := 1
  const USER_HANDLE_LEN: nat := 64
  const DYNAMIC_STATE_LEN: nat := 7
  const U32_LIMIT: nat := 0x1_0000_0000

  datatype StoredCredential = StoredCredential(
    id: Bytes, transports: Byte, userId: Bytes, staticState: Bytes, dynamicState: Bytes, metadata: Bytes)

  /** The component decoders of the WebAuthn library: which encodings they accept. */
  datatype Decoders = Decoders(
    id: Bytes -> bool, transports: Byte -> bool, userId: Bytes -> bool,
    staticState: Bytes -> bool, dynamicState: Bytes -> bool, metadata: Bytes -> bool)

  predicate Sized(c: StoredCredential) {
    |c.userId| == USER_HANDLE_LEN && |c.dynamicState| == DYNAMIC_STATE_LEN
  }

  predicate Encodable(c: StoredCredential) {
    |c.id| < U32_LIMIT && |c.staticState| < U32_LIMIT && |c.metadata| < U32_LIMIT
  }

  predicate Decodable(d: Decoders, c: StoredCredential) {
    && d.id(c.id) && d.transports(c.transports) && d.userId(c.userId)
    && d.staticState(c.staticState) && d.dynamicState(c.dynamicState) && d.metadata(c.metadata)
  }

  // ----- The layout -----

  /** The low byte and the rest. */
  lemma Digits(low: Byte, high: nat)
    ensures (low + 0x100 * high) % 0x100 == low && (low + 0x100 * high) / 0x100 == high
  {
  }

  function LittleEndian(n: nat): (b: Bytes)
    requires n < U32_LIMIT
    ensures |b| == 4
  {
    var second := n / 0x100;
    var third := second / 0x100;
    [n % 0x100, second % 0x100, third % 0x100, third / 0x100]
  }

  function Prefixed(value: Bytes): Bytes
    requires |value| < U32_LIMIT
  {
    LittleEndian(|value|) + value
  }

  function Layout(c: StoredCredential): Bytes
    requires Encodable(c)
  {
    [VERSION] + (Prefixed(c.id) + ([c.transports] + (c.userId +
    (Prefixed(c.staticState) + (c.dynamicState + Prefixed(c.metadata))))))
  }

  /** The number four bytes stand for, the lowest first. */
  function LowFirst(a: int, b: int, c: int, d: int): int { a + 0x100 * b + 0x1_0000 * c + 0x100_0000 * d }

  lemma LittleEndianMeans(n: nat)
    requires n < U32_LIMIT
    ensures var b := LittleEndian(n); LowFirst(b[0], b[1], b[2], b[3]) == n
  {
  }

  lemma Cut(s: Bytes, a: Bytes, b: Bytes, m: nat)
    requires m <= |s| && s[m..] == a + b
    ensures m + |a| <= |s| && s[m..m + |a|] == a && s[m + |a|..] == b
  {
    assert s[m..][..|a|] == a && s[m..][|a|..] == b;
    assert s[m..m + |a|] == s[m..][..|a|] && s[m + |a|..] == s[m..][|a|..];
  }

  /** Where the length and the bytes of a component lie. */
  lemma CutPrefixed(s: Bytes, value: Bytes, b: Bytes, m: nat)
    requires |value| < U32_LIMIT && m <= |s| && s[m..] == Prefixed(value) + b
    ensures m + 4 + |value| <= |s|
    ensures s[m..m + 4] == LittleEndian(|value|) && s[m + 4..m + 4 + |value|] == value && s[m + 4 + |value|..] == b
  {
    assert Prefixed(value) + b == LittleEndian(|value|) + (value + b);
    Cut(s, LittleEndian(|value|), value + b, m);
    Cut(s, value, b, m + 4);
  }

  /** What follows the user handle. */
  function SecondHalf(c: StoredCredential): Bytes
    requires Encodable(c)
  {
    Prefixed(c.staticState) + (c.dynamicState + Prefixed(c.metadata))
  }

  /** Where the components of the first half lie in a stored form. */
  lemma FirstHalfPositions(c: StoredCredential)
    requires Sized(c) && Encodable(c)
    ensures
      var blob, i := Layout(c), |c.id|;
      && |blob| >= 70 + i
      && blob[0] == 1 && blob[1..5] == LittleEndian(i) && blob[5..5 + i] == c.id
      && blob[5 + i] == c.transports && blob[6 + i..70 + i] == c.userId
      && blob[70 + i..] == SecondHalf(c)
  {
    var blob, i := Layout(c), |c.id|;
    var afterId := [c.transports] + (c.userId + SecondHalf(c));
    assert blob[1..] == Prefixed(c.id) + afterId;
    CutPrefixed(blob, c.id, afterId, 1);
    Cut(blob, [c.transports], c.userId + SecondHalf(c), 5 + i);
    assert blob[5 + i] == blob[5 + i..6 + i][0];
    Cut(blob, c.userId, SecondHalf(c), 6 + i);
  }

  /** Where the components of the second half lie, from wherever it starts. */
  lemma SecondHalfPositions(c: StoredCredential, blob: Bytes, j: nat)
    requires Sized(c) && Encodable(c) && j <= |blob| && blob[j..] == SecondHalf(c)
    ensures
      var k := j + 4 + |c.staticState|;
      && |blob| == k + 11 + |c.metadata|
      && blob[j..j + 4] == LittleEndian(|c.staticState|) && blob[j + 4..k] == c.staticState
      && blob[k..k + 7] == c.dynamicState
      && blob[k + 7..k + 11] == LittleEndian(|c.metadata|) && blob[k + 11..] == c.metadata
  {
    var k := j + 4 + |c.staticState|;
    CutPrefixed(blob, c.staticState, c.dynamicState + Prefixed(c.metadata), j);
    Cut(blob, c.dynamicState, Prefixed(c.metadata), k);
    assert Prefixed(c.metadata) + [] == Prefixed(c.metadata);
    CutPrefixed(blob, c.metadata, [], k + 7);
    assert |blob[k + 11 + |c.metadata|..]| == 0;
  }

  // ----- Writing -----

  class Output {
    var bytes: Bytes

    constructor ()
      ensures bytes == []
    {
      bytes := [];
    }

    method Extend(value: Bytes)
      modifies this
      ensures bytes == old(bytes) + value
    {
      bytes := bytes + value;
    }

    method PushVec(value: Bytes) returns (ok: bool)
      modifies this
      ensures ok <==> |value| < U32_LIMIT
      ensures ok ==> bytes == old(bytes) + Prefixed(value)
      ensures !ok ==> bytes == old(bytes)
    {
      if |value| >= U32_LIMIT {
        return false;
      }
      Extend(LittleEndian(|value|));
      Extend(value);
      return true;
    }
  }

  method ToBlob(c: StoredCredential) returns (r: Result<Bytes>)
    ensures r.Ok? <==> Encodable(c)
    ensures r.Ok? ==> r.value == Layout(c)
    ensures r.Err? ==> r.error == TooLarge
  {
    var output := new Output();
    output.Extend([VERSION]);
    var ok := output.PushVec(c.id);
    if !ok {
      return Err(TooLarge);
    }
    output.Extend([c.transports]);
    output.Extend(c.userId);
    ok := output.PushVec(c.staticState);
    if !ok {
      return Err(TooLarge);
    }
    output.Extend(c.dynamicState);
    ok := output.PushVec(c.metadata);
    if !ok {
      return Err(TooLarge);
    }
    Regroup([VERSION], Prefixed(c.id), [c.transports], c.userId, Prefixed(c.staticState), c.dynamicState, Prefixed(c.metadata));
    return Ok(output.bytes);
  }

  lemma Regroup(a: Bytes, b: Bytes, c: Bytes, d: Bytes, e: Bytes, f: Bytes, g: Bytes)
    ensures [] + a + b + c + d + e + f + g == a + (b + (c + (d + (e + (f + g)))))
  {
  }

  // ----- Reading -----

  function Number(low: nat, high: nat): nat {
    low + 0x100 * high
  }

  function FromLittleEndian(b: Bytes): nat
    requires |b| == 4
  {
    Number(b[0], Number(b[1], Number(b[2], b[3])))
  }

  lemma LittleEndianInverse(n: nat)
    requires n < U32_LIMIT
    ensures FromLittleEndian(LittleEndian(n)) == n
  {
    var second := n / 0x100;
    var third := second / 0x100;
    assert Number(third % 0x100, third / 0x100) == third;
    assert Number(second % 0x100, third) == second;
  }

  lemma FromLittleEndianInverse(b: Bytes)
    requires |b| == 4
    ensures FromLittleEndian(b) < U32_LIMIT && LittleEndian(FromLittleEndian(b)) == b
  {
    var third := Number(b[2], b[3]);
    var second := Number(b[1], third);
    Digits(b[2], b[3]);
    Digits(b[1], third);
    Digits(b[0], second);
  }

  /** What was read off the front of a blob, and what is left. */
  datatype Read<+T> = Read(value: T, rest: Bytes)

  function ArrayOf(s: Bytes, n: nat): Result<Read<Bytes>> {
    if n > |s| then Err(Truncated) else Ok(Read(s[..n], s[n..]))
  }

  function VecOf(s: Bytes): Result<Read<Bytes>> {
    var header := ArrayOf(s, 4);
    if header.Err? then Err(header.error) else ArrayOf(header.value.rest, FromLittleEndian(header.value.value))
  }

  /** A component that was read is also put to its decoder. */
  function Checked(r: Result<Read<Bytes>>, accepts: Bytes -> bool): Result<Read<Bytes>> {
    if r.Ok? && !accepts(r.value.value) then Err(BadComponent) else r
  }

  /** The unread rest of a blob. */
  class Input {
    var rest: Bytes

    constructor (blob: Bytes)
      ensures rest == blob
    {
      rest := blob;
    }

    /** Succeeds exactly when there are enough bytes, which are then the prefix that was consumed. */
    method TakeArray(n: nat) returns (r: Result<Bytes>)
      modifies this
      ensures r.Ok? <==> n <= |old(rest)|
      ensures r.Ok? ==> |r.value| == n && old(rest) == r.value + rest && ArrayOf(old(rest), n) == Ok(Read(r.value, rest))
      ensures r.Err? ==> r.error == Truncated && rest == old(rest)
    {
      if n > |rest| {
        return Err(Truncated);
      }
      r := Ok(rest[..n]);
      rest := rest[n..];
    }

    method TakeU8() returns (r: Result<Byte>)
      modifies this
      ensures r.Ok? <==> old(rest) != []
      ensures r.Ok? ==> old(rest) == [r.value] + rest
      ensures r.Err? ==> r.error == Truncated
    {
      if rest == [] {
        return Err(Truncated);
      }
      r := Ok(rest[0]);
      rest := rest[1..];
    }

    /** Succeeds exactly when the unread bytes start with a length-prefixed component. */
    method TakeVec() returns (r: Result<Bytes>)
      modifies this
      ensures r.Ok? ==> |r.value| < U32_LIMIT && old(rest) == Prefixed(r.value) + rest
      ensures r.Ok? ==> VecOf(old(rest)) == Ok(Read(r.value, rest))
      ensures r.Err? ==> r.error == Truncated && !StartsPrefixed(old(rest)) && VecOf(old(rest)) == Err(Truncated)
    {
      VecOfMeans(rest);
      var header := TakeArray(4);
      if header.Err? {
        return Err(Truncated);
      }
      r := TakeArray(FromLittleEndian(header.value));
    }
  }

  ghost predicate StartsPrefixed(s: Bytes) {
    exists value: Bytes, rest: Bytes :: |value| < U32_LIMIT && s == Prefixed(value) + rest
  }

  lemma ShortIsNotPrefixed(s: Bytes)
    requires |s| < 4
    ensures !StartsPrefixed(s)
  {
  }

  lemma HeaderIs(header: Bytes, n: nat)
    requires |header| == 4 && FromLittleEndian(header) == n
    ensures n < U32_LIMIT && LittleEndian(n) == header
  {
    FromLittleEndianInverse(header);
  }

  lemma WholeIsPrefixed(header: Bytes, value: Bytes, rest: Bytes)
    requires |value| < U32_LIMIT && LittleEndian(|value|) == header
    ensures header + (value + rest) == Prefixed(value) + rest
  {
    Regroup3(header, value, rest);
  }

  lemma Regroup3(a: Bytes, b: Bytes, c: Bytes)
    ensures a + (b + c) == a + b + c
  {
  }

  lemma CutIsNotPrefixed(header: Bytes, rest: Bytes)
    requires |header| == 4 && FromLittleEndian(header) > |rest|
    ensures !StartsPrefixed(header + rest)
  {
    forall value: Bytes, tail: Bytes | |value| < U32_LIMIT ensures header + rest != Prefixed(value) + tail {
      if header + rest == Prefixed(value) + tail {
        assert header == (header + rest)[..4] == LittleEndian(|value|);
        LittleEndianInverse(|value|);
      }
    }
  }

  lemma PrefixedCancel(a: Bytes, restA: Bytes, b: Bytes, restB: Bytes)
    requires |a| < U32_LIMIT && |b| < U32_LIMIT && Prefixed(a) + restA == Prefixed(b) + restB
    ensures a == b && restA == restB
  {
    LittleEndianInverse(|a|);
    LittleEndianInverse(|b|);
    var all := Prefixed(a) + restA;
    assert all[..4] == LittleEndian(|a|) && all[..4] == LittleEndian(|b|);
    assert all[4..4 + |a|] == a && all[4..4 + |a|] == b;
    assert all[4 + |a|..] == restA && all[4 + |a|..] == restB;
  }

  lemma Cancel(a: Bytes, restA: Bytes, b: Bytes, restB: Bytes)
    requires |a| == |b| && a + restA == b + restB
    ensures a == b && restA == restB
  {
    var all := a + restA;
    assert all[..|a|] == a && all[..|a|] == b;
    assert all[|a|..] == restA && all[|a|..] == restB;
  }

  // ----- The two halves of a blob -----

  datatype Head = Head(id: Bytes, transports: Byte, userId: Bytes)
  datatype Tail = Tail(staticState: Bytes, dynamicState: Bytes, metadata: Bytes)

  predicate HeadOk(d: Decoders, h: Head) {
    && |h.id| < U32_LIMIT && |h.userId| == USER_HANDLE_LEN
    && d.id(h.id) && d.transports(h.transports) && d.userId(h.userId)
  }

  predicate TailOk(d: Decoders, t: Tail) {
    && |t.staticState| < U32_LIMIT && |t.dynamicState| == DYNAMIC_STATE_LEN && |t.metadata| < U32_LIMIT
    && d.staticState(t.staticState) && d.dynamicState(t.dynamicState) && d.metadata(t.metadata)
  }

  /** The head followed by the rest of the blob. */
  predicate HeadThen(d: Decoders, h: Head, rest: Bytes, all: Bytes) {
    HeadOk(d, h) && all == Prefixed(h.id) + ([h.transports] + (h.userId + rest))
  }

  predicate TailThen(d: Decoders, t: Tail, rest: Bytes, all: Bytes) {
    TailOk(d, t) && all == Prefixed(t.staticState) + (t.dynamicState + (Prefixed(t.metadata) + rest))
  }

  /** There is only one way to read a head. */
  lemma HeadUnique(d: Decoders, h: Head, rest: Bytes, other: Head, otherRest: Bytes, all: Bytes)
    requires HeadThen(d, h, rest, all) && HeadThen(d, other, otherRest, all)
    ensures h == other && rest == otherRest
  {
    PrefixedCancel(h.id, [h.transports] + (h.userId + rest), other.id, [other.transports] + (other.userId + otherRest));
    Cancel([h.transports], h.userId + rest, [other.transports], other.userId + otherRest);
    Cancel(h.userId, rest, other.userId, otherRest);
  }

  lemma TailUnique(d: Decoders, t: Tail, rest: Bytes, other: Tail, otherRest: Bytes, all: Bytes)
    requires TailThen(d, t, rest, all) && TailThen(d, other, otherRest, all)
    ensures t == other && rest == otherRest
  {
    PrefixedCancel(t.staticState, t.dynamicState + (Prefixed(t.metadata) + rest),
                   other.staticState, other.dynamicState + (Prefixed(other.metadata) + otherRest));
    Cancel(t.dynamicState, Prefixed(t.metadata) + rest, other.dynamicState, Prefixed(other.metadata) + otherRest);
    PrefixedCancel(t.metadata, rest, other.metadata, otherRest);
  }

  /** Reading the head, component by component; the first problem met is the one that is blamed. */
  function DecodeHead(d: Decoders, s: Bytes): Result<Read<Head>> {
    var id := Checked(VecOf(s), d.id);
    if id.Err? then Err(id.error)
    else if id.value.rest == [] then Err(Truncated)
    else
      var transports := id.value.rest[0];
      if !d.transports(transports) then Err(BadComponent)
      else
        var userId := Checked(ArrayOf(id.value.rest[1..], USER_HANDLE_LEN), d.userId);
        if userId.Err? then Err(userId.error)
        else Ok(Read(Head(id.value.value, transports, userId.value.value), userId.value.rest))
  }

  function DecodeTail(d: Decoders, s: Bytes): Result<Read<Tail>> {
    var staticState := Checked(VecOf(s), d.staticState);
    if staticState.Err? then Err(staticState.error)
    else
      var dynamicState := Checked(ArrayOf(staticState.value.rest, DYNAMIC_STATE_LEN), d.dynamicState);
      if dynamicState.Err? then Err(dynamicState.error)
      else
        var metadata := Checked(VecOf(dynamicState.value.rest), d.metadata);
        if metadata.Err? then Err(metadata.error)
        else Ok(Read(Tail(staticState.value.value, dynamicState.value.value, metadata.value.value), metadata.value.rest))
  }

  function Decode(d: Decoders, blob: Bytes): Result<StoredCredential> {
    if blob == [] then Err(Truncated)
    else if blob[0] != VERSION then Err(UnsupportedVersion)
    else
      var head := DecodeHead(d, blob[1..]);
      if head.Err? then Err(head.error)
      else
        var tail := DecodeTail(d, head.value.rest);
        if tail.Err? then Err(tail.error)
        else if tail.value.rest != [] then Err(TrailingData)
        else
          var h, t := head.value.value, tail.value.value;
          Ok(StoredCredential(h.id, h.transports, h.userId, t.staticState, t.dynamicState, t.metadata))
  }

  lemma VecOfMeans(s: Bytes)
    ensures VecOf(s).Ok? ==> |VecOf(s).value.value| < U32_LIMIT && s == Prefixed(VecOf(s).value.value) + VecOf(s).value.rest
    ensures VecOf(s).Err? ==> VecOf(s).error == Truncated && !StartsPrefixed(s)
  {
    if |s| < 4 {
      ShortIsNotPrefixed(s);
    } else {
      var header, after := s[..4], s[4..];
      assert s == header + after;
      if FromLittleEndian(header) <= |after| {
        var n := FromLittleEndian(header);
        assert after == after[..n] + after[n..];
        HeaderIs(header, n);
        WholeIsPrefixed(header, after[..n], after[n..]);
      } else {
        CutIsNotPrefixed(header, after);
      }
    }
  }

  /** What every head in front of `all` has in common, once the identifier has been read off it. */
  lemma HeadsShareId(d: Decoders, all: Bytes, id: Bytes, afterId: Bytes, h: Head, rest: Bytes)
    requires |id| < U32_LIMIT && all == Prefixed(id) + afterId && HeadThen(d, h, rest, all)
    ensures h.id == id && afterId == [h.transports] + (h.userId + rest)
  {
    PrefixedCancel(h.id, [h.transports] + (h.userId + rest), id, afterId);
  }

  /** The transports and the user handle, where the identifier has been read. */
  lemma HeadsShareRest(d: Decoders, all: Bytes, id: Bytes, afterId: Bytes, h: Head, rest: Bytes)
    requires |id| < U32_LIMIT && all == Prefixed(id) + afterId && HeadThen(d, h, rest, all)
    ensures afterId != [] && afterId[0] == h.transports
    ensures USER_HANDLE_LEN <= |afterId[1..]| && afterId[1..][..USER_HANDLE_LEN] == h.userId
  {
    HeadsShareId(d, all, id, afterId, h, rest);
    assert afterId[1..] == h.userId + rest;
  }

  lemma HeadFound(d: Decoders, all: Bytes)
    requires DecodeHead(d, all).Ok?
    ensures HeadThen(d, DecodeHead(d, all).value.value, DecodeHead(d, all).value.rest, all)
  {
    VecOfMeans(all);
    var afterId := VecOf(all).value.rest;
    var left := afterId[1..];
    assert afterId == [afterId[0]] + left;
    assert left == left[..USER_HANDLE_LEN] + left[USER_HANDLE_LEN..];
  }

  /** A head is decoded exactly where there is one. */
  lemma HeadMeans(d: Decoders, all: Bytes)
    ensures DecodeHead(d, all).Ok? ==> HeadThen(d, DecodeHead(d, all).value.value, DecodeHead(d, all).value.rest, all)
    ensures DecodeHead(d, all).Err? ==> DecodeHead(d, all).error in {Truncated, BadComponent}
    ensures DecodeHead(d, all).Err? ==> forall h, rest :: !HeadThen(d, h, rest, all)
  {
    VecOfMeans(all);
    if DecodeHead(d, all).Ok? {
      HeadFound(d, all);
    }
    forall h, rest | HeadThen(d, h, rest, all) ensures DecodeHead(d, all).Ok? {
      assert StartsPrefixed(all);
      var id := VecOf(all).value;
      HeadsShareId(d, all, id.value, id.rest, h, rest);
      HeadsShareRest(d, all, id.value, id.rest, h, rest);
    }
  }

  /** A tail is decoded exactly where there is one. */
  lemma TailMeans(d: Decoders, all: Bytes)
    ensures DecodeTail(d, all).Ok? ==> TailThen(d, DecodeTail(d, all).value.value, DecodeTail(d, all).value.rest, all)
    ensures DecodeTail(d, all).Err? ==> DecodeTail(d, all).error in {Truncated, BadComponent}
    ensures DecodeTail(d, all).Err? ==> forall t, rest :: !TailThen(d, t, rest, all)
  {
    VecOfMeans(all);
    var staticState := VecOf(all);
    if staticState.Err? {
      assert forall t, rest :: TailThen(d, t, rest, all) ==> StartsPrefixed(all);
      return;
    }
    var afterStatic := staticState.value.rest;
    forall t, rest | TailThen(d, t, rest, all)
      ensures t.staticState == staticState.value.value && afterStatic == t.dynamicState + (Prefixed(t.metadata) + rest)
    {
      PrefixedCancel(t.staticState, t.dynamicState + (Prefixed(t.metadata) + rest), staticState.value.value, afterStatic);
    }
    if d.staticState(staticState.value.value) && DYNAMIC_STATE_LEN <= |afterStatic| {
      var dynamicState, afterDynamic := afterStatic[..DYNAMIC_STATE_LEN], afterStatic[DYNAMIC_STATE_LEN..];
      assert afterStatic == dynamicState + afterDynamic;
      forall t, rest | TailThen(d, t, rest, all)
        ensures t.dynamicState == dynamicState && afterDynamic == Prefixed(t.metadata) + rest
      {
        Cancel(t.dynamicState, Prefixed(t.metadata) + rest, dynamicState, afterDynamic);
      }
      VecOfMeans(afterDynamic);
      var metadata := VecOf(afterDynamic);
      if metadata.Err? {
        assert forall t, rest :: TailThen(d, t, rest, all) ==> StartsPrefixed(afterDynamic);
      } else {
        forall t, rest | TailThen(d, t, rest, all) ensures t.metadata == metadata.value.value {
          PrefixedCancel(t.metadata, rest, metadata.value.value, metadata.value.rest);
        }
      }
    }
  }

  method ReadHead(d: Decoders, input: Input) returns (r: Result<Head>)
    modifies input
    ensures DecodeHead(d, old(input.rest)) == if r.Ok? then Ok(Read(r.value, input.rest)) else Err(r.error)
  {
    var id := input.TakeVec();
    if id.Err? {
      return Err(id.error);
    }
    if !d.id(id.value) {
      return Err(BadComponent);
    }
    var transports := input.TakeU8();
    if transports.Err? {
      return Err(transports.error);
    }
    if !d.transports(transports.value) {
      return Err(BadComponent);
    }
    var userId := input.TakeArray(USER_HANDLE_LEN);
    if userId.Err? {
      return Err(userId.error);
    }
    if !d.userId(userId.value) {
      return Err(BadComponent);
    }
    return Ok(Head(id.value, transports.value, userId.value));
  }

  method ReadTail(d: Decoders, input: Input) returns (r: Result<Tail>)
    modifies input
    ensures DecodeTail(d, old(input.rest)) == if r.Ok? then Ok(Read(r.value, input.rest)) else Err(r.error)
  {
    var staticState := input.TakeVec();
    if staticState.Err? {
      return Err(staticState.error);
    }
    if !d.staticState(staticState.value) {
      return Err(BadComponent);
    }
    var dynamicState := input.TakeArray(DYNAMIC_STATE_LEN);
    if dynamicState.Err? {
      return Err(dynamicState.error);
    }
    if !d.dynamicState(dynamicState.value) {
      return Err(BadComponent);
    }
    var metadata := input.TakeVec();
    if metadata.Err? {
      return Err(metadata.error);
    }
    if !d.metadata(metadata.value) {
      return Err(BadComponent);
    }
    return Ok(Tail(staticState.value, dynamicState.value, metadata.value));
  }

  // ----- The whole blob -----

  /** `blob` is the stored form of the credential `c`. */
  predicate Stores(d: Decoders, c: StoredCredential, blob: Bytes) {
    Sized(c) && Encodable(c) && Decodable(d, c) && blob == Layout(c)
  }

  /** The first `k` bytes of the blob, but not all of it, are the stored form of `c`. */
  predicate StoresShorter(d: Decoders, c: StoredCredential, blob: Bytes, k: int) {
    0 <= k < |blob| && Stores(d, c, blob[..k])
  }

  function HeadOf(c: StoredCredential): Head {
    Head(c.id, c.transports, c.userId)
  }

  function TailOf(c: StoredCredential): Tail {
    Tail(c.staticState, c.dynamicState, c.metadata)
  }

  lemma StoresHalves(d: Decoders, c: StoredCredential, blob: Bytes, middle: Bytes)
    requires blob != [] && blob[0] == VERSION
    requires HeadThen(d, HeadOf(c), middle, blob[1..]) && TailThen(d, TailOf(c), [], middle)
    ensures Stores(d, c, blob)
  {
    assert Prefixed(c.metadata) + [] == Prefixed(c.metadata);
    assert blob == [VERSION] + blob[1..];
  }

  lemma HalvesOfStored(d: Decoders, c: StoredCredential, blob: Bytes) returns (middle: Bytes)
    requires Stores(d, c, blob)
    ensures blob != [] && blob[0] == VERSION
    ensures HeadThen(d, HeadOf(c), middle, blob[1..]) && TailThen(d, TailOf(c), [], middle)
  {
    middle := Prefixed(c.staticState) + (c.dynamicState + Prefixed(c.metadata));
    assert Prefixed(c.metadata) + [] == Prefixed(c.metadata);
  }

  /** Where bytes are left over, the blob without them is a stored form. */
  lemma StoresPrefix(d: Decoders, h: Head, t: Tail, blob: Bytes, middle: Bytes, extra: Bytes)
    requires blob != [] && blob[0] == VERSION && extra != []
    requires HeadThen(d, h, middle, blob[1..]) && TailThen(d, t, extra, middle)
    ensures exists c, k :: StoresShorter(d, c, blob, k)
  {
    var c := StoredCredential(h.id, h.transports, h.userId, t.staticState, t.dynamicState, t.metadata);
    var k := |blob| - |extra|;
    var shorter := middle[..|middle| - |extra|];
    assert shorter == Prefixed(t.staticState) + (t.dynamicState + (Prefixed(t.metadata) + []));
    assert blob[..k][1..] == Prefixed(h.id) + ([h.transports] + (h.userId + shorter));
    StoresHalves(d, c, blob[..k], shorter);
    assert StoresShorter(d, c, blob, k);
  }

  /** A blob is decoded exactly when it is the stored form of a credential, and then as that credential. */
  lemma DecodeMeans(d: Decoders, blob: Bytes)
    ensures Decode(d, blob).Ok? ==> Stores(d, Decode(d, blob).value, blob)
    ensures Decode(d, blob).Err? ==> forall c :: !Stores(d, c, blob)
  {
    if blob != [] && blob[0] == VERSION {
      HeadMeans(d, blob[1..]);
      var head := DecodeHead(d, blob[1..]);
      if head.Ok? {
        TailMeans(d, head.value.rest);
        var tail := DecodeTail(d, head.value.rest);
        if Decode(d, blob).Ok? {
          StoresHalves(d, Decode(d, blob).value, blob, head.value.rest);
        }
      }
    }
    forall c | Stores(d, c, blob) ensures Decode(d, blob).Ok? {
      StoredDecodes(d, c, blob, []);
      assert blob + [] == blob;
    }
  }

  /** What follows a stored form is what is left when it has been read. */
  lemma StoredDecodes(d: Decoders, c: StoredCredential, blob: Bytes, extra: Bytes)
    requires Stores(d, c, blob)
    ensures Decode(d, blob + extra) == if extra == [] then Ok(c) else Err(TrailingData)
  {
    var middle := HalvesOfStored(d, c, blob);
    var all := (blob + extra)[1..];
    assert all == blob[1..] + extra;
    HeadExtends(d, HeadOf(c), middle, blob[1..], extra);
    HeadMeans(d, all);
    var head := DecodeHead(d, all);
    HeadUnique(d, HeadOf(c), middle + extra, head.value.value, head.value.rest, all);
    TailExtends(d, TailOf(c), [], middle, extra);
    TailMeans(d, middle + extra);
    var tail := DecodeTail(d, middle + extra);
    TailUnique(d, TailOf(c), [] + extra, tail.value.value, tail.value.rest, middle + extra);
    assert [] + extra == extra;
  }

  /** Trailing data is blamed exactly when a shorter part is a stored form. */
  lemma TrailingExactly(d: Decoders, blob: Bytes)
    ensures Decode(d, blob) == Err(TrailingData) <==> exists c, k :: StoresShorter(d, c, blob, k)
  {
    forall c, k | StoresShorter(d, c, blob, k) ensures Decode(d, blob) == Err(TrailingData) {
      StoredDecodes(d, c, blob[..k], blob[k..]);
      assert blob[..k] + blob[k..] == blob;
    }
    if Decode(d, blob) == Err(TrailingData) {
      HeadMeans(d, blob[1..]);
      var head := DecodeHead(d, blob[1..]).value;
      TailMeans(d, head.rest);
      var tail := DecodeTail(d, head.rest).value;
      StoresPrefix(d, head.value, tail.value, blob, head.rest, tail.rest);
    }
  }

  method FromBlob(d: Decoders, blob: Bytes) returns (r: Result<StoredCredential>)
    ensures r == Decode(d, blob)
    ensures r.Ok? ==> Stores(d, r.value, blob)
    ensures r.Err? ==> forall c :: !Stores(d, c, blob)
  {
    DecodeMeans(d, blob);
    r := ReadBlob(d, blob);
  }

  /** The version, the two halves, and nothing after them. */
  method ReadBlob(d: Decoders, blob: Bytes) returns (r: Result<StoredCredential>)
    ensures r == Decode(d, blob)
  {
    var input := new Input(blob);
    var version := input.TakeU8();
    if version.Err? {
      return Err(version.error);
    }
    if version.value != VERSION {
      return Err(UnsupportedVersion);
    }
    assert input.rest == blob[1..];
    var head := ReadHead(d, input);
    if head.Err? {
      return Err(head.error);
    }
    var tail := ReadTail(d, input);
    if tail.Err? {
      return Err(tail.error);
    }
    if input.rest != [] {
      return Err(TrailingData);
    }
    return Ok(StoredCredential(head.value.id, head.value.transports, head.value.userId,
                               tail.value.staticState, tail.value.dynamicState, tail.value.metadata));
  }

  /** No blob, nor any extension of it, stores two credentials: truncated or extended blobs store none. */
  lemma StoredFormIsUnique(d: Decoders, a: StoredCredential, blob: Bytes, b: StoredCredential, extra: Bytes)
    requires Stores(d, a, blob) && Stores(d, b, blob + extra)
    ensures a == b && extra == []
  {
    var middleA := HalvesOfStored(d, a, blob);
    var middleB := HalvesOfStored(d, b, blob + extra);
    var all := (blob + extra)[1..];
    assert all == blob[1..] + extra;
    HeadExtends(d, HeadOf(a), middleA, blob[1..], extra);
    HeadUnique(d, HeadOf(a), middleA + extra, HeadOf(b), middleB, all);
    TailExtends(d, TailOf(a), [], middleA, extra);
    TailUnique(d, TailOf(a), [] + extra, TailOf(b), [], middleB);
  }

  lemma HeadExtends(d: Decoders, h: Head, rest: Bytes, all: Bytes, extra: Bytes)
    requires HeadThen(d, h, rest, all)
    ensures HeadThen(d, h, rest + extra, all + extra)
  {
    assert all + extra == Prefixed(h.id) + ([h.transports] + (h.userId + (rest + extra)));
  }

  lemma TailExtends(d: Decoders, t: Tail, rest: Bytes, all: Bytes, extra: Bytes)
    requires TailThen(d, t, rest, all)
    ensures TailThen(d, t, rest + extra, all + extra)
  {
    assert all + extra == Prefixed(t.staticState) + (t.dynamicState + (Prefixed(t.metadata) + (rest + extra)));
  }

  /** Writing and reading back gives the credential. */
  method WriteThenRead(d: Decoders, c: StoredCredential) returns (r: Result<StoredCredential>)
    requires Sized(c) && Encodable(c) && Decodable(d, c)
    ensures r == Ok(c)
  {
    var blob := ToBlob(c);
    r := FromBlob(d, blob.value);
    assert Stores(d, c, blob.value);
    assert blob.value + [] == blob.value;
    StoredFormIsUnique(d, c, blob.value, r.value, []);
  }

  /** Reading and writing back gives the same bytes. */
  method ReadThenWrite(d: Decoders, blob: Bytes) returns (read: Result<StoredCredential>, r: Result<Bytes>)
    ensures read.Ok? <==> exists c :: Stores(d, c, blob)
    ensures read.Ok? ==> r == Ok(blob)
    ensures read.Err? ==> r == Err(read.error)
  {
    read := FromBlob(d, blob);
    if read.Err? {
      return read, Err(read.error);
    }
    r := ToBlob(read.value);
  }
}
