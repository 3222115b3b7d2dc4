/**
 Why a stored credential is refused, said of its bytes alone.

 A blob is a version byte and six slots.  It is refused at the first slot that is cut
 short or whose component its decoder rejects, or for bytes after the last slot.
 */
module CredentialRefusal {
  import opened Common
  import opened CredentialBlob

  /** Slots: identifier, transports, user handle, static state, dynamic state, metadata. */
  type Slot = i: nat | i <= 6

  predicate Counted(i: Slot) { i == 0 || i == 3 || i == 5 }

  /** How many bytes a slot without a length has. */
  function Width(i: Slot): nat { if i == 1 then 1 else if i == 2 then 64 else 7 }

  predicate Fits(i: Slot, v: Bytes) {
    if Counted(i) then |v| < 0x1_0000_0000 else |v| == Width(i)
  }

  function Written(i: Slot, v: Bytes): Bytes
    requires Fits(i, v)
  {
    if Counted(i) then Prefixed(v) else v
  }

  predicate Accepts(d: Decoders, i: Slot, v: Bytes)
    requires i < 6 && Fits(i, v)
  {
    match i
    case 0 => d.id(v)
    case 1 => d.transports(v[0])
    case 2 => d.userId(v)
    case 3 => d.staticState(v)
    case 4 => d.dynamicState(v)
    case _ => d.metadata(v)
  }

  /** Slot `i` holds `v`, and `rest` follows it. */
  predicate Holds(i: Slot, s: Bytes, v: Bytes, rest: Bytes) {
    Fits(i, v) && s == Written(i, v) + rest
  }

  ghost predicate Whole(i: Slot, s: Bytes) {
    exists v, rest :: Holds(i, s, v, rest)
  }

  /** Slots from `i` on up to `j` hold accepted components, and `rest` follows. */
  ghost predicate Leads(d: Decoders, i: Slot, s: Bytes, j: Slot, rest: Bytes)
    requires i <= j
    decreases j - i
  {
    if i == j then s == rest
    else exists v, next :: Holds(i, s, v, next) && Accepts(d, i, v) && Leads(d, i + 1, next, j, rest)
  }

  /** What is wrong at slot `j`, where `rest` is what is left. */
  ghost predicate Faulty(d: Decoders, j: Slot, rest: Bytes, error: Error) {
    match error
    case Truncated => j < 6 && !Whole(j, rest)
    case BadComponent => j < 6 && exists v, more :: Holds(j, rest, v, more) && !Accepts(d, j, v)
    case TrailingData => j == 6 && rest != []
    case _ => false
  }

  // ----- Reading slot by slot -----

  function SlotOf(i: Slot, s: Bytes): Result<Read<Bytes>> {
    if Counted(i) then VecOf(s) else ArrayOf(s, Width(i))
  }

  lemma SlotMeans(i: Slot, s: Bytes)
    ensures SlotOf(i, s).Ok? ==> Holds(i, s, SlotOf(i, s).value.value, SlotOf(i, s).value.rest)
    ensures SlotOf(i, s).Err? ==> SlotOf(i, s).error == Truncated && !Whole(i, s)
  {
    if Counted(i) {
      VecOfMeans(s);
      if Whole(i, s) {
        var v, rest :| Holds(i, s, v, rest);
        assert StartsPrefixed(s);
      }
    }
  }

  lemma SlotUnique(i: Slot, s: Bytes, v: Bytes, rest: Bytes, w: Bytes, other: Bytes)
    requires Holds(i, s, v, rest) && Holds(i, s, w, other)
    ensures v == w && rest == other
  {
    if Counted(i) {
      PrefixedCancel(v, rest, w, other);
    } else {
      Cancel(v, rest, w, other);
    }
  }

  /** The first problem met when the slots are read from `i` on. */
  function Refusal(d: Decoders, i: Slot, s: Bytes): Option<Error>
    decreases 6 - i
  {
    if i == 6 then if s == [] then None else Some(TrailingData)
    else
      SlotMeans(i, s);
      var r := SlotOf(i, s);
      if r.Err? then Some(Truncated)
      else if !Accepts(d, i, r.value.value) then Some(BadComponent)
      else Refusal(d, i + 1, r.value.rest)
  }

  lemma HeadBySlots(d: Decoders, s: Bytes)
    ensures DecodeHead(d, s).Err? ==> Refusal(d, 0, s) == Some(DecodeHead(d, s).error)
    ensures DecodeHead(d, s).Ok? ==> Refusal(d, 0, s) == Refusal(d, 3, DecodeHead(d, s).value.rest)
  {
    VecOfMeans(s);
    if VecOf(s).Ok? && d.id(VecOf(s).value.value) {
      var rest := VecOf(s).value.rest;
      assert Refusal(d, 0, s) == Refusal(d, 1, rest);
      if rest != [] {
        assert rest[..1] == [rest[0]];
        assert SlotOf(1, rest) == Ok(Read([rest[0]], rest[1..]));
        if d.transports(rest[0]) {
          assert Refusal(d, 1, rest) == Refusal(d, 2, rest[1..]);
        }
      }
    }
  }

  lemma TailBySlots(d: Decoders, s: Bytes)
    ensures DecodeTail(d, s).Err? ==> Refusal(d, 3, s) == Some(DecodeTail(d, s).error)
    ensures DecodeTail(d, s).Ok? ==> Refusal(d, 3, s) == if DecodeTail(d, s).value.rest == [] then None else Some(TrailingData)
  {
    VecOfMeans(s);
    if VecOf(s).Ok? && d.staticState(VecOf(s).value.value) {
      var rest := VecOf(s).value.rest;
      assert Refusal(d, 3, s) == Refusal(d, 4, rest);
      if |rest| >= 7 && d.dynamicState(rest[..7]) {
        assert Refusal(d, 4, rest) == Refusal(d, 5, rest[7..]);
        VecOfMeans(rest[7..]);
      }
    }
  }

  lemma DecodeBySlots(d: Decoders, blob: Bytes)
    requires blob != [] && blob[0] == 1
    ensures Decode(d, blob).Ok? <==> Refusal(d, 0, blob[1..]) == None
    ensures Decode(d, blob).Err? ==> Refusal(d, 0, blob[1..]) == Some(Decode(d, blob).error)
  {
    HeadBySlots(d, blob[1..]);
    var head := DecodeHead(d, blob[1..]);
    if head.Ok? {
      TailBySlots(d, head.value.rest);
    }
  }

  // ----- The first problem is where the slots say -----

  ghost predicate FaultAt(d: Decoders, i: Slot, s: Bytes, j: Slot, rest: Bytes, error: Error) {
    i <= j && Leads(d, i, s, j, rest) && Faulty(d, j, rest, error)
  }

  /** From slot `i` on, the slots lead to one that has this fault. */
  ghost predicate FaultFrom(d: Decoders, i: Slot, s: Bytes, error: Error) {
    exists j, rest :: FaultAt(d, i, s, j, rest, error)
  }

  lemma NotHere(d: Decoders, i: Slot, s: Bytes, v: Bytes, next: Bytes, error: Error)
    requires i < 6 && Holds(i, s, v, next) && Accepts(d, i, v)
    ensures !Faulty(d, i, s, error)
  {
    forall w, more | Holds(i, s, w, more) ensures Accepts(d, i, w) {
      SlotUnique(i, s, v, next, w, more);
    }
  }

  /** What leads past a slot leads through its component. */
  lemma LeadsThrough(d: Decoders, i: Slot, s: Bytes, v: Bytes, next: Bytes, j: Slot, rest: Bytes)
    requires i < j && Holds(i, s, v, next)
    ensures Leads(d, i, s, j, rest) <==> Accepts(d, i, v) && Leads(d, i + 1, next, j, rest)
  {
    if Leads(d, i, s, j, rest) {
      var w, other :| Holds(i, s, w, other) && Accepts(d, i, w) && Leads(d, i + 1, other, j, rest);
      SlotUnique(i, s, v, next, w, other);
    }
  }

  lemma FaultLater(d: Decoders, i: Slot, s: Bytes, v: Bytes, next: Bytes, error: Error)
    requires i < 6 && Holds(i, s, v, next) && Accepts(d, i, v)
    ensures FaultFrom(d, i, s, error) <==> FaultFrom(d, i + 1, next, error)
  {
    NotHere(d, i, s, v, next, error);
    forall j, rest | FaultAt(d, i, s, j, rest, error) ensures FaultFrom(d, i + 1, next, error) {
      assert i != j;
      LeadsThrough(d, i, s, v, next, j, rest);
      assert FaultAt(d, i + 1, next, j, rest, error);
    }
    var after: Slot := i + 1;
    forall j, rest | FaultAt(d, after, next, j, rest, error) ensures FaultFrom(d, i, s, error) {
      LeadsThrough(d, i, s, v, next, j, rest);
      assert FaultAt(d, i, s, j, rest, error);
    }
  }

  lemma OneFault(d: Decoders, i: Slot, s: Bytes, error: Error, other: Error)
    requires Faulty(d, i, s, error) && Faulty(d, i, s, other)
    ensures error == other
  {
    if i < 6 && error != other {
      // One of them is a component that is there, the other that there is none.
      assert Whole(i, s);
    }
  }

  /** A slot that is at fault is the end: nothing leads past it. */
  lemma OnlyHere(d: Decoders, i: Slot, s: Bytes, error: Error, other: Error)
    requires Faulty(d, i, s, error)
    ensures FaultFrom(d, i, s, other) <==> other == error
  {
    assert FaultAt(d, i, s, i, s, error) by {
      assert Leads(d, i, s, i, s);
    }
    forall j, rest | FaultAt(d, i, s, j, rest, other) ensures other == error {
      if i == j {
        OneFault(d, i, s, error, other);
      } else {
        var w, next :| Holds(i, s, w, next) && Accepts(d, i, w) && Leads(d, i + 1, next, j, rest);
        NotHere(d, i, s, w, next, error);
      }
    }
  }

  lemma {:induction false} RefusalIsFault(d: Decoders, i: Slot, s: Bytes, error: Error)
    ensures Refusal(d, i, s) == Some(error) <==> FaultFrom(d, i, s, error)
    decreases 6 - i
  {
    if i == 6 {
      if s != [] {
        OnlyHere(d, i, s, TrailingData, error);
      }
    } else {
      SlotMeans(i, s);
      var r := SlotOf(i, s);
      if r.Err? {
        OnlyHere(d, i, s, Truncated, error);
      } else if !Accepts(d, i, r.value.value) {
        OnlyHere(d, i, s, BadComponent, error);
      } else {
        FaultLater(d, i, s, r.value.value, r.value.rest, error);
        RefusalIsFault(d, i + 1, r.value.rest, error);
      }
    }
  }

  /**
   A blob is refused exactly for what its bytes show: nothing at all, another version, or
   the first slot after accepted ones that is cut short, rejected, or one too many.
   */
  lemma RefusedExactly(d: Decoders, blob: Bytes, error: Error)
    ensures Decode(d, blob) == Err(error) <==>
      if blob == [] then error == Truncated
      else if blob[0] != 1 then error == UnsupportedVersion
      else FaultFrom(d, 0, blob[1..], error)
  {
    if blob != [] && blob[0] == 1 {
      DecodeBySlots(d, blob);
      RefusalIsFault(d, 0, blob[1..], error);
    }
  }
}
