/** The attribute/threshold join of readAtaSmartStatus in src/drive_handle_base.cc. */
module SmartStatus {
  import opened DparmTypes

  /** A raw attribute slot of the drive; id 0 marks an unused slot. */
  datatype Slot = Slot(id: uint8, flags: uint16, current: uint8, worst: uint8, raw: seq<uint8>)

  datatype ThresholdSlot = ThresholdSlot(id: uint8, threshold: uint8)

  datatype Attribute =
    Attribute(id: uint8, flags: uint16, current: uint8, worst: uint8, threshold: uint8, raw: seq<uint8>)

  const BLANK := Attribute(0, 0, 0, 0, 0, [])

  /** The used slots in order, with threshold zero. */
  function Collected(slots: seq<Slot>): (r: seq<Attribute>)
    ensures |r| <= |slots|
    ensures forall k :: 0 <= k < |r| ==> r[k].id != 0 && r[k].threshold == 0
  {
    if slots == [] then []
    else
      var s := slots[|slots| - 1];
      Collected(slots[..|slots| - 1])
      + if s.id == 0 then [] else [Attribute(s.id, s.flags, s.current, s.worst, 0, s.raw)]
  }

  /** How many of the first n slots are used. */
  function UsedBefore(slots: seq<Slot>, n: nat): (c: nat)
    requires n <= |slots|
    ensures c <= n
  {
    if n == 0 then 0 else UsedBefore(slots, n - 1) + if slots[n - 1].id != 0 then 1 else 0
  }

  /** Attribute n holds what slot i holds, field by field. */
  predicate Copied(slots: seq<Slot>, i: nat, attrs: seq<Attribute>, n: nat) {
    && i < |slots| && n < |attrs|
    && attrs[n].id == slots[i].id && attrs[n].flags == slots[i].flags && attrs[n].current == slots[i].current
    && attrs[n].worst == slots[i].worst && attrs[n].raw == slots[i].raw
  }

  /** Each used slot yields the attribute whose place is the number of used slots before it. */
  ghost predicate CopiesSlots(slots: seq<Slot>, attrs: seq<Attribute>) {
    && |attrs| == UsedBefore(slots, |slots|)
    && forall i: nat :: i < |slots| && slots[i].id != 0 ==> Copied(slots, i, attrs, UsedBefore(slots, i))
  }

  lemma {:induction false} UsedInPrefix(slots: seq<Slot>, more: seq<Slot>, n: nat)
    requires n <= |slots| && slots <= more
    ensures UsedBefore(slots, n) == UsedBefore(more, n)
  {
    if n > 0 {
      UsedInPrefix(slots, more, n - 1);
    }
  }

  lemma {:induction false} CollectedCopies(slots: seq<Slot>)
    ensures CopiesSlots(slots, Collected(slots))
    decreases |slots|
  {
    if slots != [] {
      var front := slots[..|slots| - 1];
      CollectedCopies(front);
      CollectedStep(slots);
      hide *;
      CopiesOneMore(front, Collected(front), slots, Collected(slots));
    }
  }

  lemma CopiesOneMore(front: seq<Slot>, fewer: seq<Attribute>, slots: seq<Slot>, attrs: seq<Attribute>)
    requires slots != [] && front == slots[..|slots| - 1] && CopiesSlots(front, fewer) && fewer <= attrs
    requires |attrs| == |fewer| + (if slots[|slots| - 1].id == 0 then 0 else 1)
    requires slots[|slots| - 1].id != 0 ==> Copied(slots, |slots| - 1, attrs, |fewer|)
    ensures CopiesSlots(slots, attrs)
  {
    hide Copied, UsedBefore;
    var n := |front|;
    UsedInPrefix(front, slots, n);
    UsedOneMore(slots, n);
    forall i: nat | i < |slots| && slots[i].id != 0
      ensures Copied(slots, i, attrs, UsedBefore(slots, i))
    {
      if i < n {
        assert front[i] == slots[i];
        UsedInPrefix(front, slots, i);
        CopiedFurther(front, fewer, slots, attrs, i, UsedBefore(slots, i));
      }
    }
  }

  lemma UsedOneMore(slots: seq<Slot>, n: nat)
    requires n < |slots|
    ensures UsedBefore(slots, n + 1) == UsedBefore(slots, n) + if slots[n].id != 0 then 1 else 0
  {}

  lemma CopiedFurther(front: seq<Slot>, fewer: seq<Attribute>, slots: seq<Slot>, attrs: seq<Attribute>, i: nat, n: nat)
    requires front <= slots && fewer <= attrs
    ensures Copied(front, i, fewer, n) ==> Copied(slots, i, attrs, n)
  {}

  lemma CollectedStep(slots: seq<Slot>)
    requires slots != []
    ensures var s, front := slots[|slots| - 1], Collected(slots[..|slots| - 1]);
            && front <= Collected(slots) && |Collected(slots)| == |front| + (if s.id == 0 then 0 else 1)
            && (s.id != 0 ==> Copied(slots, |slots| - 1, Collected(slots), |front|))
  {}

  /** Joining thresholds does not change what was copied. */
  lemma JoinedCopies(slots: seq<Slot>, thresholds: seq<ThresholdSlot>, joined: seq<Attribute>)
    requires Joined(Collected(slots), thresholds, joined)
    ensures CopiesSlots(slots, joined)
  {
    CollectedCopies(slots);
    hide Collected;
    hide UsedBefore;
    forall i: nat | i < |slots| && slots[i].id != 0
      ensures Copied(slots, i, joined, UsedBefore(slots, i))
    {
      assert Copied(slots, i, Collected(slots), UsedBefore(slots, i));
    }
  }

  /** Slot k is the last one with this id. */
  predicate IsLastSlot(slots: seq<ThresholdSlot>, id: uint8, k: nat) {
    k < |slots| && slots[k].id == id && forall j :: k < j < |slots| ==> slots[j].id != id
  }

  /** t is the threshold of the last slot with this id, or zero without one. */
  ghost predicate IsLastThreshold(slots: seq<ThresholdSlot>, id: uint8, t: uint8) {
    || (t == 0 && forall k :: 0 <= k < |slots| ==> slots[k].id != id)
    || (exists k: nat :: IsLastSlot(slots, id, k) && slots[k].threshold == t)
  }

  lemma {:induction false} LastThresholdIsLast(slots: seq<ThresholdSlot>, id: uint8)
    ensures IsLastThreshold(slots, id, LastThreshold(slots, id))
    decreases |slots|
  {
    if slots != [] {
      var n := |slots| - 1;
      var front := slots[..n];
      if slots[n].id == id {
        assert IsLastSlot(slots, id, n);
      } else {
        LastThresholdIsLast(front, id);
        if k: nat :| IsLastSlot(front, id, k) && front[k].threshold == LastThreshold(front, id) {
          assert slots[k] == front[k] && IsLastSlot(slots, id, k);
        } else {
          assert forall j :: 0 <= j < n ==> slots[j] == front[j];
        }
      }
    }
  }

  /** Each first attribute of its id has the last threshold for it, any other has zero. */
  ghost predicate HasThresholds(thresholds: seq<ThresholdSlot>, attrs: seq<Attribute>) {
    forall k :: 0 <= k < |attrs| ==>
      if forall j :: 0 <= j < k ==> attrs[j].id != attrs[k].id
      then IsLastThreshold(thresholds, attrs[k].id, attrs[k].threshold)
      else attrs[k].threshold == 0
  }

  lemma JoinedThresholds(base: seq<Attribute>, thresholds: seq<ThresholdSlot>, joined: seq<Attribute>)
    requires Joined(base, thresholds, joined)
    ensures HasThresholds(thresholds, joined)
  {
    assert forall k :: 0 <= k < |base| ==> joined[k].id == base[k].id;
    forall k | 0 <= k < |joined|
      ensures if forall j :: 0 <= j < k ==> joined[j].id != joined[k].id
              then IsLastThreshold(thresholds, joined[k].id, joined[k].threshold)
              else joined[k].threshold == 0
    {
      LastThresholdIsLast(thresholds, base[k].id);
      assert FirstOfId(base, k) <==> forall j :: 0 <= j < k ==> joined[j].id != joined[k].id;
    }
  }

  /** The threshold of the last slot with this id, or zero. */
  function LastThreshold(slots: seq<ThresholdSlot>, id: uint8): uint8 {
    if slots == [] then 0
    else if slots[|slots| - 1].id == id then slots[|slots| - 1].threshold
    else LastThreshold(slots[..|slots| - 1], id)
  }

  predicate FirstOfId(attrs: seq<Attribute>, k: nat)
    requires k < |attrs|
  {
    forall j :: 0 <= j < k ==> attrs[j].id != attrs[k].id
  }

  /** joined is base with thresholds: the first attribute of each id gets the last threshold slot of that id. */
  ghost predicate Joined(base: seq<Attribute>, slots: seq<ThresholdSlot>, joined: seq<Attribute>) {
    && |joined| == |base|
    && forall k :: 0 <= k < |base| ==>
         joined[k] == base[k].(threshold := if FirstOfId(base, k) then LastThreshold(slots, base[k].id) else 0)
  }

  /** The first pass. */
  method CountUsed(slots: seq<Slot>) returns (count: nat)
    ensures count == |Collected(slots)|
  {
    hide Collected;
    NoneCollected(slots);
    count := 0;
    var i := 0;
    while i < |slots|
      invariant i <= |slots| && count == |Collected(slots[..i])|
    {
      CollectedNext(slots, i);
      if slots[i].id != 0 {
        count := count + 1;
      }
      i := i + 1;
    }
    assert slots[..i] == slots;
  }

  /** The first two passes: count the used slots, then copy them. */
  method CollectAttributes(slots: seq<Slot>) returns (attributes: array<Attribute>)
    ensures fresh(attributes) && attributes[..] == Collected(slots)
  {
    hide Collected;
    var count := CountUsed(slots);
    NoneCollected(slots);
    attributes := new Attribute[count](_ => BLANK);
    count := 0;
    var i := 0;
    while i < |slots|
      invariant i <= |slots| && count == |Collected(slots[..i])| <= attributes.Length == |Collected(slots)|
      invariant attributes[..count] == Collected(slots[..i])
    {
      CollectedNext(slots, i);
      CollectedGrows(slots, i + 1);
      if slots[i].id != 0 {
        var s := slots[i];
        attributes[count] := Attribute(s.id, s.flags, s.current, s.worst, 0, s.raw);
        count := count + 1;
      }
      i := i + 1;
    }
    assert slots[..i] == slots;
  }

  lemma NoneCollected(slots: seq<Slot>)
    ensures Collected(slots[..0]) == []
  {}

  lemma CollectedNext(slots: seq<Slot>, i: nat)
    requires i < |slots|
    ensures var s := slots[i];
            Collected(slots[..i + 1]) ==
              Collected(slots[..i])
              + if s.id == 0 then [] else [Attribute(s.id, s.flags, s.current, s.worst, 0, s.raw)]
  {
    assert slots[..i + 1][..i] == slots[..i];
  }

  lemma {:induction false} CollectedGrows(slots: seq<Slot>, i: nat)
    requires i <= |slots|
    ensures |Collected(slots[..i])| <= |Collected(slots)|
    decreases |slots| - i
  {
    if i < |slots| {
      assert slots[..i + 1][..i] == slots[..i];
      CollectedGrows(slots, i + 1);
    } else {
      assert slots[..i] == slots;
    }
  }

  /** The third pass: each used threshold slot goes to the first attribute with its id. */
  method JoinThresholds(attributes: array<Attribute>, slots: seq<ThresholdSlot>)
    requires Joined(attributes[..], [], attributes[..])
    requires forall k :: 0 <= k < attributes.Length ==> attributes[k].id != 0
    modifies attributes
    ensures Joined(old(attributes[..]), slots, attributes[..])
  {
    hide Joined, LastThreshold, FirstOfId;
    ghost var base := attributes[..];
    assert slots[..0] == [];
    var i := 0;
    while i < |slots|
      invariant i <= |slots| && Joined(base, slots[..i], attributes[..])
    {
      assert slots[..i + 1] == slots[..i] + [slots[i]];
      ghost var before := attributes[..];
      var found := 0;
      if slots[i].id != 0 {
        while found < attributes.Length && attributes[found].id != slots[i].id
          invariant found <= attributes.Length
          invariant forall j :: 0 <= j < found ==> attributes[j].id != slots[i].id
        {
          found := found + 1;
        }
        if found < attributes.Length {
          attributes[found] := attributes[found].(threshold := slots[i].threshold);
        }
        JoinStep(base, slots[..i], slots[i], before, found, attributes[..]);
      } else {
        UnusedSlot(base, slots[..i], slots[i], before);
      }
      i := i + 1;
    }
    assert slots[..i] == slots;
  }

  lemma JoinStep(base: seq<Attribute>, slots: seq<ThresholdSlot>, t: ThresholdSlot, before: seq<Attribute>, found: nat,
                 after: seq<Attribute>)
    requires Joined(base, slots, before) && found <= |before|
    requires forall j :: 0 <= j < found ==> before[j].id != t.id
    requires found < |before| ==> before[found].id == t.id
    requires after == if found < |before| then before[found := before[found].(threshold := t.threshold)] else before
    ensures Joined(base, slots + [t], after)
  {
    var more := slots + [t];
    assert more[..|slots|] == slots;
    forall k | 0 <= k < |base|
      ensures after[k] == base[k].(threshold := if FirstOfId(base, k) then LastThreshold(more, base[k].id) else 0)
    {
      assert before[k].id == base[k].id;
      if k == found {
        assert forall j :: 0 <= j < k ==> before[j].id == base[j].id;
        assert FirstOfId(base, k);
      } else if base[k].id == t.id {
        assert found < k && base[found].id == before[found].id;
        assert !FirstOfId(base, k);
      }
    }
  }

  lemma UnusedSlot(base: seq<Attribute>, slots: seq<ThresholdSlot>, t: ThresholdSlot, joined: seq<Attribute>)
    requires Joined(base, slots, joined) && t.id == 0 && forall k :: 0 <= k < |base| ==> base[k].id != 0
    ensures Joined(base, slots + [t], joined)
  {
    assert (slots + [t])[..|slots|] == slots;
  }

  /** The join as a whole, on the two tables of 30 slots the drive returned. */
  method JoinSmartStatus(values: seq<Slot>, thresholds: seq<ThresholdSlot>) returns (attributes: array<Attribute>)
    requires |values| == |thresholds| == 30
    ensures CopiesSlots(values, attributes[..]) && HasThresholds(thresholds, attributes[..])
    ensures Joined(Collected(values), thresholds, attributes[..])
  {
    attributes := CollectAttributes(values);
    assert Joined(attributes[..], [], attributes[..]);
    assert forall k :: 0 <= k < attributes.Length ==> attributes[k] == attributes[..][k];
    JoinThresholds(attributes, thresholds);
    JoinedCopies(values, thresholds, attributes[..]);
    JoinedThresholds(Collected(values), thresholds, attributes[..]);
  }
}
