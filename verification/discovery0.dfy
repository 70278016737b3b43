/** The Level 0 Discovery walk of src/drive_handle_base.cc. */
module Discovery0 {
  import opened DparmTypes
  import opened TcgCodec
  import opened TcgTypes

  const FC_TPER: uint16 := 0x0001
  const FC_LOCKING: uint16 := 0x0002
  const FC_GEOMETRY_REPORTING: uint16 := 0x0003
  const FC_ENTERPRISE: uint16 := 0x0100
  const FC_OPAL_V100: uint16 := 0x0200
  const FC_SINGLE_USER: uint16 := 0x0201
  const FC_DATASTORE: uint16 := 0x0202
  const FC_OPAL_V200: uint16 := 0x0203

  // sizeof(discovery0_header_t); the header of the Opal SSC is 48 bytes.
  const STRUCT_HEADER: nat := 32
  const SSC_HEADER: nat := 48

  datatype Visit = Visit(code: uint16, item: seq<uint8>)

  /** The descriptor at p as the loop reads it. */
  function VisitAt(s: seq<uint8>, slack: nat -> uint8, p: nat): (v: Visit)
    ensures |v.item| >= 4
  {
    var hi: nat, lo: nat, len: nat := At(s, slack, p), At(s, slack, p + 1), At(s, slack, p + 3);
    Visit(hi * 256 + lo, Slice(s, slack, p, len + 4))
  }

  /** Every descriptor the loop visits between p and dend, in order. */
  function Walk(s: seq<uint8>, slack: nat -> uint8, p: nat, dend: nat): seq<Visit>
    decreases dend - p
  {
    if p >= dend then []
    else
      var v := VisitAt(s, slack, p);
      [v] + Walk(s, slack, p + |v.item|, dend)
  }

  /** The positions at which the loop body runs. */
  function Stops(s: seq<uint8>, slack: nat -> uint8, p: nat, dend: nat): (os: seq<nat>)
    ensures forall o :: o in os ==> p <= o < dend
    decreases dend - p
  {
    if p >= dend then [] else [p] + Stops(s, slack, p + |VisitAt(s, slack, p).item|, dend)
  }

  /** The visits are those of the stops, in order. */
  lemma {:induction false} WalkVisitsStops(s: seq<uint8>, slack: nat -> uint8, p: nat, dend: nat)
    ensures |Walk(s, slack, p, dend)| == |Stops(s, slack, p, dend)|
    ensures forall k :: 0 <= k < |Walk(s, slack, p, dend)| ==>
      Walk(s, slack, p, dend)[k] == VisitAt(s, slack, Stops(s, slack, p, dend)[k])
    decreases dend - p
  {
    hide VisitAt;
    if p < dend {
      WalkVisitsStops(s, slack, p + |VisitAt(s, slack, p).item|, dend);
    }
  }

  /** std::map::emplace: an existing entry wins. */
  function Emplace(m: map<uint16, seq<uint8>>, v: Visit): map<uint16, seq<uint8>> {
    if v.code in m then m else m[v.code := v.item]
  }

  function EmplaceAll(m: map<uint16, seq<uint8>>, vs: seq<Visit>): map<uint16, seq<uint8>>
    decreases |vs|
  {
    if vs == [] then m else EmplaceAll(Emplace(m, vs[0]), vs[1..])
  }

  ghost predicate Visited(vs: seq<Visit>, code: uint16) {
    exists k :: 0 <= k < |vs| && vs[k].code == code
  }

  /** vs[k] is the first to carry its code. */
  ghost predicate IsFirst(vs: seq<Visit>, k: nat)
    requires k < |vs|
  {
    forall j :: 0 <= j < k ==> vs[j].code != vs[k].code
  }

  /** A code that is visited has a first visit. */
  lemma {:induction false} VisitedHasFirst(vs: seq<Visit>, c: uint16) returns (k: nat)
    requires Visited(vs, c)
    ensures k < |vs| && vs[k].code == c && IsFirst(vs, k)
    decreases |vs|
  {
    if Visited(vs[..|vs| - 1], c) {
      k := VisitedHasFirst(vs[..|vs| - 1], c);
      assert vs[k] == vs[..|vs| - 1][k];
      assert forall j :: 0 <= j < k ==> vs[..|vs| - 1][j] == vs[j];
    } else {
      k := |vs| - 1;
      assert forall j :: 0 <= j < k ==> vs[..|vs| - 1][j] == vs[j];
    }
  }

  lemma {:induction false} EmplaceKeys(m: map<uint16, seq<uint8>>, vs: seq<Visit>, c: uint16)
    ensures c in EmplaceAll(m, vs) <==> c in m || Visited(vs, c)
    ensures c in m ==> EmplaceAll(m, vs)[c] == m[c]
    decreases |vs|
  {
    if vs != [] {
      var rest := vs[1..];
      EmplaceKeys(Emplace(m, vs[0]), rest, c);
      if Visited(rest, c) {
        var k :| 0 <= k < |rest| && rest[k].code == c;
        assert vs[k + 1].code == c;
      }
      if Visited(vs, c) && vs[0].code != c {
        var k :| 0 <= k < |vs| && vs[k].code == c;
        assert rest[k - 1].code == c;
      }
    }
  }

  /** For a new code, the first descriptor that carries it is kept. */
  lemma {:induction false} EmplaceKeepsFirst(m: map<uint16, seq<uint8>>, vs: seq<Visit>, k: nat)
    requires k < |vs| && IsFirst(vs, k) && vs[k].code !in m
    ensures vs[k].code in EmplaceAll(m, vs) && EmplaceAll(m, vs)[vs[k].code] == vs[k].item
    decreases |vs|
  {
    var m', rest := Emplace(m, vs[0]), vs[1..];
    if k == 0 {
      EmplaceKeys(m', rest, vs[0].code);
    } else {
      assert vs[0].code != vs[k].code;
      assert forall j :: 0 <= j < k - 1 ==> rest[j] == vs[j + 1];
      EmplaceKeepsFirst(m', rest, k - 1);
    }
  }

  // ---- The layout of section 3.1.1.1 of the TCG Opal SSC ------------------------------------------------

  /** A feature descriptor: code, version byte, and a body whose length its fourth byte gives. */
  datatype Descriptor = Descriptor(code: uint16, version: uint8, body: seq<uint8>)

  predicate Encodable(d: Descriptor) {
    |d.body| < 256
  }

  function EncodeDescriptor(d: Descriptor): (e: seq<uint8>)
    requires Encodable(d)
    ensures |e| == 4 + |d.body|
  {
    [d.code / 256, d.code % 256, d.version, |d.body|] + d.body
  }

  predicate AllEncodable(ds: seq<Descriptor>) {
    forall k :: 0 <= k < |ds| ==> Encodable(ds[k])
  }

  function EncodeDescriptors(ds: seq<Descriptor>): seq<uint8>
    requires AllEncodable(ds)
  {
    if ds == [] then [] else EncodeDescriptor(ds[0]) + EncodeDescriptors(ds[1..])
  }

  function VisitsOf(ds: seq<Descriptor>): (vs: seq<Visit>)
    requires AllEncodable(ds)
    ensures |vs| == |ds|
    ensures forall k :: 0 <= k < |ds| ==> vs[k] == Visit(ds[k].code, EncodeDescriptor(ds[k]))
  {
    if ds == [] then [] else [Visit(ds[0].code, EncodeDescriptor(ds[0]))] + VisitsOf(ds[1..])
  }

  /** Where the descriptors start when the first is at p. */
  function Offsets(p: nat, ds: seq<Descriptor>): seq<nat>
    decreases |ds|
  {
    if ds == [] then [] else [p] + Offsets(p + 4 + |ds[0].body|, ds[1..])
  }

  /**
   * A response with these descriptors. The length field does not count itself, and the 16 bytes before the
   * descriptors belong to the vendor.
   */
  predicate Response(s: seq<uint8>, ds: seq<Descriptor>)
    requires AllEncodable(ds)
  {
    var total := SSC_HEADER + |EncodeDescriptors(ds)|;
    total <= |s| && FromBE32(s[0..4]) == total - 4 && s[SSC_HEADER..total] == EncodeDescriptors(ds)
  }

  /** Following the length bytes from p through the vendor bytes leads exactly to the first descriptor. */
  predicate Lands(s: seq<uint8>, p: nat)
    requires |s| >= SSC_HEADER + 3
    decreases SSC_HEADER - p
  {
    p == SSC_HEADER || (p < SSC_HEADER && Lands(s, p + s[p + 3] + 4))
  }

  /** What the loop takes for descriptors in the vendor bytes. */
  function HeaderVisits(s: seq<uint8>, slack: nat -> uint8, p: nat): seq<Visit>
    requires |s| >= SSC_HEADER + 3 && Lands(s, p)
    decreases SSC_HEADER - p
  {
    if p == SSC_HEADER then []
    else [VisitAt(s, slack, p)] + HeaderVisits(s, slack, p + s[p + 3] + 4)
  }

  /** If they lead there, the loop goes on as if it had started at the first descriptor. */
  lemma {:induction false} LandsSplits(s: seq<uint8>, slack: nat -> uint8, p: nat, dend: nat)
    requires |s| >= SSC_HEADER + 3 && Lands(s, p) && SSC_HEADER <= dend
    ensures Walk(s, slack, p, dend) == HeaderVisits(s, slack, p) + Walk(s, slack, SSC_HEADER, dend)
    ensures forall o :: o in Stops(s, slack, SSC_HEADER, dend) ==> o in Stops(s, slack, p, dend)
    decreases SSC_HEADER - p
  {
    hide VisitAt, Walk, Stops, Lands, HeaderVisits;
    HeaderOne(s, slack, p);
    if p < SSC_HEADER {
      var v := VisitAt(s, slack, p);
      var next := p + |v.item|;
      WalkOne(s, slack, p, dend);
      LandsSplits(s, slack, next, dend);
      var header, rest := HeaderVisits(s, slack, next), Walk(s, slack, SSC_HEADER, dend);
      assert [v] + (header + rest) == [v] + header + rest;
    }
  }

  lemma HeaderOne(s: seq<uint8>, slack: nat -> uint8, p: nat)
    requires |s| >= SSC_HEADER + 3 && Lands(s, p)
    ensures p <= SSC_HEADER && (p == SSC_HEADER ==> HeaderVisits(s, slack, p) == [])
    ensures p < SSC_HEADER ==> var v := VisitAt(s, slack, p);
      |v.item| == s[p + 3] as nat + 4 && Lands(s, p + |v.item|)
      && HeaderVisits(s, slack, p) == [v] + HeaderVisits(s, slack, p + |v.item|)
  {
    if p < SSC_HEADER {
      VisitLength(s, slack, p);
      hide VisitAt;
    }
  }

  lemma HeaderBase(s: seq<uint8>, slack: nat -> uint8)
    requires |s| >= SSC_HEADER + 3
    ensures Lands(s, SSC_HEADER) && HeaderVisits(s, slack, SSC_HEADER) == []
  {}

  lemma HeaderBack(s: seq<uint8>, slack: nat -> uint8, p: nat, next: nat)
    requires |s| >= SSC_HEADER + 3 && p < SSC_HEADER && next == p + s[p + 3] as nat + 4 && Lands(s, next)
    ensures Lands(s, p) && HeaderVisits(s, slack, p) == [VisitAt(s, slack, p)] + HeaderVisits(s, slack, next)
  {
    hide VisitAt;
  }

  lemma VisitLength(s: seq<uint8>, slack: nat -> uint8, p: nat)
    requires p + 3 < |s|
    ensures |VisitAt(s, slack, p).item| == s[p + 3] as nat + 4
  {}

  /** The loop ever stands at the first descriptor exactly if they do. */
  lemma {:induction false} StandsIff(s: seq<uint8>, slack: nat -> uint8, p: nat, dend: nat)
    requires |s| >= SSC_HEADER + 3 && SSC_HEADER < dend
    ensures SSC_HEADER in Stops(s, slack, p, dend) <==> Lands(s, p)
    decreases SSC_HEADER - p
  {
    if p < SSC_HEADER {
      VisitLength(s, slack, p);
      hide VisitAt, Stops;
      WalkOne(s, slack, p, dend);
      StandsIff(s, slack, p + s[p + 3] + 4, dend);
    }
  }

  const ZERO_VISIT := Visit(0, [0, 0, 0, 0])

  /** The descriptors the loop reaches: all, but for a last one without a body. */
  function Reached(ds: seq<Descriptor>): (r: seq<Descriptor>)
    requires AllEncodable(ds) && ds != []
    ensures AllEncodable(r)
  {
    if LastHasBody(ds) then ds else ds[..|ds| - 1]
  }

  /** The last descriptor of a non-empty list has a body. */
  predicate LastHasBody(ds: seq<Descriptor>) {
    ds != [] && ds[|ds| - 1].body != []
  }

  lemma VisitDescriptor(s: seq<uint8>, slack: nat -> uint8, p: nat, d: Descriptor)
    requires Encodable(d) && p + 4 + |d.body| <= |s|
    requires s[p..p + 4 + |d.body|] == EncodeDescriptor(d)
    ensures VisitAt(s, slack, p) == Visit(d.code, EncodeDescriptor(d))
  {
    var e := EncodeDescriptor(d);
    assert s[p] == e[0] && s[p + 1] == e[1] && s[p + 3] == e[3];
  }

  /** Stopping four bytes early loses a final descriptor exactly when it consists of its four header bytes. */
  lemma {:induction false} WalkDescriptors(s: seq<uint8>, slack: nat -> uint8, p: nat, ds: seq<Descriptor>)
    requires AllEncodable(ds) && ds != [] && p + |EncodeDescriptors(ds)| <= |s|
    requires s[p..p + |EncodeDescriptors(ds)|] == EncodeDescriptors(ds)
    ensures Walk(s, slack, p, p + |EncodeDescriptors(ds)| - 4)
         == VisitsOf(Reached(ds))
    ensures Stops(s, slack, p, p + |EncodeDescriptors(ds)| - 4) == Offsets(p, Reached(ds))
    decreases |ds|
  {
    hide EncodeDescriptor, VisitAt, Walk, Stops, VisitsOf, Reached, Offsets;
    var e, rest := EncodeDescriptor(ds[0]), ds[1..];
    var next, dend := p + |e|, p + |EncodeDescriptors(ds)| - 4;
    SplitSlice(s, p, p + |EncodeDescriptors(ds)|, e, EncodeDescriptors(rest));
    VisitDescriptor(s, slack, p, ds[0]);
    if rest != [] {
      assert |EncodeDescriptors(rest)| >= 4;
      WalkOne(s, slack, p, dend);
      WalkDescriptors(s, slack, next, rest);
      ReachedMore(p, ds);
    } else {
      assert EncodeDescriptors(rest) == [];
      WalkEnds(s, slack, next, dend);
      if ds[0].body == [] {
        WalkEnds(s, slack, p, dend);
      } else {
        WalkOne(s, slack, p, dend);
      }
      ReachedLast(p, ds);
    }
  }

  lemma WalkOne(s: seq<uint8>, slack: nat -> uint8, p: nat, dend: nat)
    requires p < dend
    ensures var v := VisitAt(s, slack, p);
            && Walk(s, slack, p, dend) == [v] + Walk(s, slack, p + |v.item|, dend)
            && Stops(s, slack, p, dend) == [p] + Stops(s, slack, p + |v.item|, dend)
  {
    hide VisitAt;
  }

  lemma WalkEnds(s: seq<uint8>, slack: nat -> uint8, p: nat, dend: nat)
    requires p >= dend
    ensures Walk(s, slack, p, dend) == [] && Stops(s, slack, p, dend) == []
  {}

  lemma ReachedMore(p: nat, ds: seq<Descriptor>)
    requires AllEncodable(ds) && |ds| >= 2
    ensures VisitsOf(Reached(ds)) == [Visit(ds[0].code, EncodeDescriptor(ds[0]))] + VisitsOf(Reached(ds[1..]))
    ensures Offsets(p, Reached(ds)) == [p] + Offsets(p + |EncodeDescriptor(ds[0])|, Reached(ds[1..]))
  {
    hide Reached, EncodeDescriptor;
    ReachedTail(ds);
    var reached := Reached(ds);
    assert reached[1..] == Reached(ds[1..]) && reached[0] == ds[0];
  }

  lemma ReachedTail(ds: seq<Descriptor>)
    requires AllEncodable(ds) && |ds| >= 2
    ensures Reached(ds) == [ds[0]] + Reached(ds[1..])
  {
    var rest := ds[1..];
    assert rest[|rest| - 1] == ds[|ds| - 1];
    if !LastHasBody(ds) {
      assert ds[..|ds| - 1] == [ds[0]] + rest[..|rest| - 1];
    }
  }

  lemma ReachedLast(p: nat, ds: seq<Descriptor>)
    requires AllEncodable(ds) && |ds| == 1
    ensures VisitsOf(Reached(ds)) == if ds[0].body == [] then [] else [Visit(ds[0].code, EncodeDescriptor(ds[0]))]
    ensures Offsets(p, Reached(ds)) == if ds[0].body == [] then [] else [p]
  {
    hide EncodeDescriptor;
    assert ds[1..] == [] && ds[..0] == [];
  }

  predicate ZeroHeader(s: seq<uint8>)
    requires |s| >= SSC_HEADER
  {
    s[STRUCT_HEADER..SSC_HEADER] == seq<uint8>(16, _ => 0)
  }

  /** If the vendor leaves the 16 bytes zero, they read as four descriptors of code zero. */
  lemma WalkZeros(s: seq<uint8>, slack: nat -> uint8)
    requires |s| >= SSC_HEADER + 3 && ZeroHeader(s)
    ensures Lands(s, STRUCT_HEADER)
    ensures HeaderVisits(s, slack, STRUCT_HEADER) == [ZERO_VISIT, ZERO_VISIT, ZERO_VISIT, ZERO_VISIT]
  {
    hide VisitAt, ZeroHeader, Lands, HeaderVisits;
    HeaderBase(s, slack);
    ZeroStep(s, slack, 44);
    ZeroStep(s, slack, 40);
    ZeroStep(s, slack, 36);
    ZeroStep(s, slack, 32);
  }

  lemma ZeroStep(s: seq<uint8>, slack: nat -> uint8, p: nat)
    requires |s| >= SSC_HEADER + 3 && ZeroHeader(s) && p in {32, 36, 40, 44} && Lands(s, p + 4)
    ensures Lands(s, p) && HeaderVisits(s, slack, p) == [ZERO_VISIT] + HeaderVisits(s, slack, p + 4)
  {
    hide VisitAt, ZeroHeader, Lands, HeaderVisits;
    ZeroVisit(s, slack, p);
    HeaderBack(s, slack, p, p + 4);
  }

  lemma ZeroVisit(s: seq<uint8>, slack: nat -> uint8, p: nat)
    requires SSC_HEADER <= |s| && p in {32, 36, 40, 44} && ZeroHeader(s)
    ensures s[p + 3] == 0 && VisitAt(s, slack, p) == ZERO_VISIT
  {
    var z := s[STRUCT_HEADER..SSC_HEADER];
    assert s[p] == z[p - 32] == 0 && s[p + 1] == z[p - 31] == 0;
    assert s[p + 2] == z[p - 30] == 0 && s[p + 3] == z[p - 29] == 0;
    assert s[p..p + 4] == [0, 0, 0, 0];
  }

  /** What the loop visits of a response, although it starts 16 bytes early and stops 4 bytes early. */
  function ExpectedWalk(hs: seq<Visit>, ds: seq<Descriptor>): seq<Visit>
    requires AllEncodable(ds) && ds != []
  {
    hs + VisitsOf(Reached(ds))
  }

  /** If the vendor bytes lead to the descriptors, the walk visits these in order, each once. */
  lemma WalkResponse(s: seq<uint8>, slack: nat -> uint8, ds: seq<Descriptor>)
    requires AllEncodable(ds) && ds != [] && Response(s, ds)
    ensures |s| >= SSC_HEADER + 3
    ensures Lands(s, STRUCT_HEADER) ==>
      Walk(s, slack, STRUCT_HEADER, FromBE32(s[0..4])) == ExpectedWalk(HeaderVisits(s, slack, STRUCT_HEADER), ds)
  {
    hide EncodeDescriptor, FromBE32, Walk, Stops, Lands, HeaderVisits, Reached;
    assert |EncodeDescriptors(ds)| >= 4;
    if Lands(s, STRUCT_HEADER) {
      LandsSplits(s, slack, STRUCT_HEADER, FromBE32(s[0..4]));
      WalkDescriptors(s, slack, SSC_HEADER, ds);
    }
  }

  lemma {:induction false} LastOffset(p: nat, ds: seq<Descriptor>)
    requires AllEncodable(ds) && ds != []
    ensures p + |EncodeDescriptors(ds)| - 4 - |ds[|ds| - 1].body| in Offsets(p, ds)
    decreases |ds|
  {
    hide EncodeDescriptors, Offsets;
    OffsetsStep(p, ds);
    var rest := ds[1..];
    if rest == [] {
      OffsetsEnd();
    } else {
      LastOffset(p + 4 + |ds[0].body|, rest);
      assert rest[|rest| - 1] == ds[|ds| - 1];
    }
  }

  lemma OffsetsStep(p: nat, ds: seq<Descriptor>)
    requires AllEncodable(ds) && ds != []
    ensures |EncodeDescriptors(ds)| == 4 + |ds[0].body| + |EncodeDescriptors(ds[1..])|
    ensures Offsets(p, ds) == [p] + Offsets(p + 4 + |ds[0].body|, ds[1..])
  {
    hide EncodeDescriptor;
  }

  lemma OffsetsEnd()
    ensures EncodeDescriptors([]) == []
  {}

  /** The loop stands at every descriptor of a response. */
  ghost predicate AllVisited(s: seq<uint8>, slack: nat -> uint8, ds: seq<Descriptor>)
    requires |s| >= 4
  {
    forall o :: o in Offsets(SSC_HEADER, ds) ==> o in Stops(s, slack, STRUCT_HEADER, FromBE32(s[0..4]))
  }

  /** It does exactly when the vendor bytes lead to the first one and the last one has a body. */
  lemma AllVisitedIff(s: seq<uint8>, slack: nat -> uint8, ds: seq<Descriptor>)
    requires AllEncodable(ds) && ds != [] && Response(s, ds)
    ensures |s| >= SSC_HEADER + 3
    ensures AllVisited(s, slack, ds) <==> Lands(s, STRUCT_HEADER) && LastHasBody(ds)
  {
    hide FromBE32, Stops, Lands, EncodeDescriptor, AllVisited;
    assert |EncodeDescriptors(ds)| >= 4;
    if !LastHasBody(ds) {
      LastIsLost(s, slack, ds);
    } else if Lands(s, STRUCT_HEADER) {
      AllAreVisited(s, slack, ds);
    } else {
      FirstIsLost(s, slack, ds);
    }
  }

  lemma AllAreVisited(s: seq<uint8>, slack: nat -> uint8, ds: seq<Descriptor>)
    requires AllEncodable(ds) && LastHasBody(ds) && Response(s, ds)
    requires |s| >= SSC_HEADER + 3 && Lands(s, STRUCT_HEADER)
    ensures AllVisited(s, slack, ds)
  {
    hide FromBE32, Walk, Stops, Lands, HeaderVisits, EncodeDescriptor, VisitsOf, Offsets;
    assert |EncodeDescriptors(ds)| >= 4;
    LandsSplits(s, slack, STRUCT_HEADER, FromBE32(s[0..4]));
    WalkDescriptors(s, slack, SSC_HEADER, ds);
  }

  /** The last descriptor starts where the loop ends. */
  lemma LastIsLost(s: seq<uint8>, slack: nat -> uint8, ds: seq<Descriptor>)
    requires AllEncodable(ds) && ds != [] && !LastHasBody(ds) && Response(s, ds)
    ensures !AllVisited(s, slack, ds)
  {
    hide FromBE32, Stops, EncodeDescriptor, EncodeDescriptors, Offsets;
    LastOffset(SSC_HEADER, ds);
  }

  lemma FirstIsLost(s: seq<uint8>, slack: nat -> uint8, ds: seq<Descriptor>)
    requires AllEncodable(ds) && LastHasBody(ds) && Response(s, ds)
    requires |s| >= SSC_HEADER + 3 && !Lands(s, STRUCT_HEADER)
    ensures !AllVisited(s, slack, ds)
  {
    hide FromBE32, Stops, Lands;
    assert |EncodeDescriptors(ds)| >= 5;
    StandsIff(s, slack, STRUCT_HEADER, FromBE32(s[0..4]));
    assert SSC_HEADER in Offsets(SSC_HEADER, ds);
  }

  /** A response with one descriptor, of the TPer feature, behind a header with a one in byte 35. */
  function VendorByte(i: nat): uint8 {
    if i == 3 then 60 else if i == 35 || i == 49 then 1 else if i == 50 then 0x10 else if i == 51 then 12 else 0
  }

  function VendorBytes(): (s: seq<uint8>)
    ensures |s| == 64 && forall k :: 0 <= k < 64 ==> s[k] == VendorByte(k)
  {
    seq<uint8>(64, k requires 0 <= k < 64 => VendorByte(k))
  }

  /** That byte shifts the walk, and the descriptor is never seen. */
  lemma VendorByteHidesDescriptor(slack: nat -> uint8)
    ensures var ds := [Descriptor(FC_TPER, 0x10, seq<uint8>(12, _ => 0))];
            Response(VendorBytes(), ds) && LastHasBody(ds) && !Lands(VendorBytes(), STRUCT_HEADER)
    ensures !Visited(Walk(VendorBytes(), slack, STRUCT_HEADER, FromBE32(VendorBytes()[0..4])), FC_TPER)
  {
    hide Walk, Visited, Lands;
    VendorResponse();
    VendorLands();
    VendorWalk(slack);
  }

  lemma VendorResponse()
    ensures Response(VendorBytes(), [Descriptor(FC_TPER, 0x10, seq<uint8>(12, _ => 0))])
    ensures FromBE32(VendorBytes()[0..4]) == 60
  {
    var ds := [Descriptor(FC_TPER, 0x10, seq<uint8>(12, _ => 0))];
    assert ds[1..] == [] && EncodeDescriptors(ds) == EncodeDescriptor(ds[0]);
    assert VendorBytes()[SSC_HEADER..64] == EncodeDescriptor(ds[0]);
    assert VendorBytes()[0..4] == [0, 0, 0, 60];
  }

  lemma VendorLands()
    ensures !Lands(VendorBytes(), STRUCT_HEADER)
  {
    assert !Lands(VendorBytes(), 49);
    assert !Lands(VendorBytes(), 45);
    assert !Lands(VendorBytes(), 41);
    assert !Lands(VendorBytes(), 37);
  }

  lemma VendorWalk(slack: nat -> uint8)
    ensures !Visited(Walk(VendorBytes(), slack, STRUCT_HEADER, 60), FC_TPER)
  {
    hide VisitAt, Walk;
    WalkEnds(VendorBytes(), slack, 61, 60);
    NotVisitedAt(slack, 57, 4);
    NotVisitedAt(slack, 53, 4);
    NotVisitedAt(slack, 49, 4);
    NotVisitedAt(slack, 45, 4);
    NotVisitedAt(slack, 41, 4);
    NotVisitedAt(slack, 37, 4);
    NotVisitedAt(slack, 32, 5);
  }

  lemma NotVisitedAt(slack: nat -> uint8, p: nat, n: nat)
    requires p in {32, 37, 41, 45, 49, 53, 57} && n == VendorByte(p + 3) as nat + 4
    requires !Visited(Walk(VendorBytes(), slack, p + n, 60), FC_TPER)
    ensures !Visited(Walk(VendorBytes(), slack, p, 60), FC_TPER)
  {
    hide Walk, Visited;
    VendorVisit(slack, p, n);
    hide VisitAt;
    WalkOne(VendorBytes(), slack, p, 60);
    NotVisitedCons(VisitAt(VendorBytes(), slack, p), Walk(VendorBytes(), slack, p + n, 60), FC_TPER);
  }

  lemma VendorVisit(slack: nat -> uint8, p: nat, n: nat)
    requires p in {32, 37, 41, 45, 49, 53, 57} && n == VendorByte(p + 3) as nat + 4
    ensures VisitAt(VendorBytes(), slack, p).code != FC_TPER && |VisitAt(VendorBytes(), slack, p).item| == n
  {}

  lemma NotVisitedCons(v: Visit, vs: seq<Visit>, code: uint16)
    requires v.code != code && !Visited(vs, code)
    ensures !Visited([v] + vs, code)
  {}

  /** A response whose only descriptor, of the TPer feature, is four bytes long: the walk never sees it. */
  lemma BodylessDescriptorIsLost(slack: nat -> uint8)
    ensures var ds := [Descriptor(FC_TPER, 0x10, [])];
            var s := [0, 0, 0, 48] + seq<uint8>(44, _ => 0) + [0x00, 0x01, 0x10, 0x00];
            && Response(s, ds)
            && Walk(s, slack, STRUCT_HEADER, FromBE32(s[0..4])) == [ZERO_VISIT, ZERO_VISIT, ZERO_VISIT, ZERO_VISIT]
  {
    var ds := [Descriptor(FC_TPER, 0x10, [])];
    var s := [0, 0, 0, 48] + seq<uint8>(44, _ => 0) + [0x00, 0x01, 0x10, 0x00];
    assert ds[1..] == [] && EncodeDescriptors(ds) == [0x00, 0x01, 0x10, 0x00];
    assert s[SSC_HEADER..52] == EncodeDescriptors(ds);
    assert Response(s, ds);
    WalkZeros(s, slack);
    WalkResponse(s, slack, ds);
    assert ds[..0] == [];
  }

  // ---- The drive information -------------------------------------------------------------------------------

  class DriveInfo {
    var tcgSupport: int
    var tcgTper: bool
    var tcgLocking: bool
    var tcgGeometryReporting: bool
    var tcgOpalV100: bool
    var tcgOpalV200: bool
    var tcgEnterprise: bool
    var tcgSingleUserMode: bool
    var tcgDatastore: bool
    var rawFeatures: map<uint16, seq<uint8>>

    /** Each feature flag is set exactly when its code is in the map: lookups behind a flag find their entry. */
    ghost predicate Valid()
      reads `tcgTper, `tcgLocking, `tcgGeometryReporting, `tcgOpalV100, `tcgOpalV200, `tcgEnterprise,
            `tcgSingleUserMode, `tcgDatastore, `rawFeatures
    {
      && (tcgTper <==> FC_TPER in rawFeatures)
      && (tcgLocking <==> FC_LOCKING in rawFeatures)
      && (tcgGeometryReporting <==> FC_GEOMETRY_REPORTING in rawFeatures)
      && (tcgOpalV100 <==> FC_OPAL_V100 in rawFeatures)
      && (tcgOpalV200 <==> FC_OPAL_V200 in rawFeatures)
      && (tcgEnterprise <==> FC_ENTERPRISE in rawFeatures)
      && (tcgSingleUserMode <==> FC_SINGLE_USER in rawFeatures)
      && (tcgDatastore <==> FC_DATASTORE in rawFeatures)
    }

    constructor ()
      ensures Valid() && rawFeatures == map[] && tcgSupport == 0
    {
      tcgSupport := 0;
      tcgTper, tcgLocking, tcgGeometryReporting, tcgOpalV100 := false, false, false, false;
      tcgOpalV200, tcgEnterprise, tcgSingleUserMode, tcgDatastore := false, false, false, false;
      rawFeatures := map[];
    }

    /**
     * tcgDiscovery0, given the drive's answer dr and the buffer it filled. The buffer keeps between 2048 and
     * 3071 bytes behind its aligned start; slack is the memory after that.
     */
    method TcgDiscovery0(dr: DparmResult, buffer: seq<uint8>, slack: nat -> uint8) returns (r: DparmResult)
      requires Valid() && MIN_BUFFER_LENGTH <= |buffer| < MIN_BUFFER_LENGTH + 1024
      modifies this
      ensures Valid()
      // The flags agree with the map, by the codes of the features.
      ensures (tcgTper <==> 0x0001 in rawFeatures) && (tcgLocking <==> 0x0002 in rawFeatures)
      ensures (tcgGeometryReporting <==> 0x0003 in rawFeatures) && (tcgEnterprise <==> 0x0100 in rawFeatures)
      ensures (tcgOpalV100 <==> 0x0200 in rawFeatures) && (tcgOpalV200 <==> 0x0203 in rawFeatures)
      ensures (tcgSingleUserMode <==> 0x0201 in rawFeatures) && (tcgDatastore <==> 0x0202 in rawFeatures)
      ensures !dr.IsOk() ==> r == dr && rawFeatures == old(rawFeatures)
                             && tcgSupport == (if dr.code == NOT_SUPPORTED then 0 else -1)
      ensures dr.IsOk() ==> tcgSupport == 1
      ensures dr.IsOk() && FromBE32(buffer[0..4]) > |buffer| ==>
        r == DparmResult(ILLEGAL_RESPONSE, 0, 0) && rawFeatures == old(rawFeatures)
      ensures dr.IsOk() && FromBE32(buffer[0..4]) <= |buffer| ==>
        r == dr
        && rawFeatures == EmplaceAll(old(rawFeatures), Walk(buffer, slack, STRUCT_HEADER, FromBE32(buffer[0..4])))
    {
      hide FromLE32, FromBE32, Swap32, VisitAt, Walk, EmplaceAll, Emplace;
      if !dr.IsOk() {
        tcgSupport := if dr.code == NOT_SUPPORTED then 0 else -1;
        return dr;
      }
      LoadSwapped(buffer[0..4]);
      var dend := Swap32(FromLE32(buffer[0..4]));
      tcgSupport := 1;
      if |buffer| < dend {
        return DparmResult(ILLEGAL_RESPONSE, 0, 0);
      }
      var cptr := STRUCT_HEADER;
      while cptr < dend
        invariant Valid() && tcgSupport == 1
        invariant EmplaceAll(rawFeatures, Walk(buffer, slack, cptr, dend))
               == EmplaceAll(old(rawFeatures), Walk(buffer, slack, STRUCT_HEADER, dend))
        decreases dend - cptr
      {
        var v := VisitAt(buffer, slack, cptr);
        WalkStep(rawFeatures, buffer, slack, cptr, dend);
        Record(v);
        cptr := cptr + |v.item|;
      }
      WalkDone(rawFeatures, buffer, slack, cptr, dend);
      r := dr;
    }

    /** The body of the loop: the flag and the map entry of one descriptor. */
    method Record(v: Visit)
      requires Valid()
      modifies this
      ensures Valid() && rawFeatures == Emplace(old(rawFeatures), v) && tcgSupport == old(tcgSupport)
    {
      SetFlag(v.code);
      rawFeatures := Emplace(rawFeatures, v);
    }

    /** The switch over feature codes. */
    method SetFlag(code: uint16)
      modifies `tcgTper, `tcgLocking, `tcgGeometryReporting, `tcgOpalV100, `tcgOpalV200, `tcgEnterprise,
               `tcgSingleUserMode, `tcgDatastore
      ensures tcgTper == (old(tcgTper) || code == FC_TPER)
      ensures tcgLocking == (old(tcgLocking) || code == FC_LOCKING)
      ensures tcgGeometryReporting == (old(tcgGeometryReporting) || code == FC_GEOMETRY_REPORTING)
      ensures tcgOpalV100 == (old(tcgOpalV100) || code == FC_OPAL_V100)
      ensures tcgOpalV200 == (old(tcgOpalV200) || code == FC_OPAL_V200)
      ensures tcgEnterprise == (old(tcgEnterprise) || code == FC_ENTERPRISE)
      ensures tcgSingleUserMode == (old(tcgSingleUserMode) || code == FC_SINGLE_USER)
      ensures tcgDatastore == (old(tcgDatastore) || code == FC_DATASTORE)
    {
      match code
      case 0x0001 => tcgTper := true;
      case 0x0002 => tcgLocking := true;
      case 0x0003 => tcgGeometryReporting := true;
      case 0x0200 => tcgOpalV100 := true;
      case 0x0203 => tcgOpalV200 := true;
      case 0x0100 => tcgEnterprise := true;
      case 0x0201 => tcgSingleUserMode := true;
      case 0x0202 => tcgDatastore := true;
      case _ =>
    }
  }

  lemma WalkStep(m: map<uint16, seq<uint8>>, s: seq<uint8>, slack: nat -> uint8, p: nat, dend: nat)
    requires p < dend
    ensures var v := VisitAt(s, slack, p);
            EmplaceAll(m, Walk(s, slack, p, dend)) == EmplaceAll(Emplace(m, v), Walk(s, slack, p + |v.item|, dend))
  {
    hide VisitAt;
  }

  lemma WalkDone(m: map<uint16, seq<uint8>>, s: seq<uint8>, slack: nat -> uint8, p: nat, dend: nat)
    requires p >= dend
    ensures EmplaceAll(m, Walk(s, slack, p, dend)) == m
  {}

  ghost predicate Carried(ds: seq<Descriptor>, c: uint16) {
    exists k :: 0 <= k < |ds| && ds[k].code == c
  }

  /** No earlier descriptor carries the code of ds[k]. */
  ghost predicate FirstOfCode(ds: seq<Descriptor>, k: nat)
    requires k < |ds|
  {
    forall j :: 0 <= j < k ==> ds[j].code != ds[k].code
  }

  /** A code that is carried has a first descriptor. */
  lemma {:induction false} CarriedHasFirst(ds: seq<Descriptor>, c: uint16) returns (k: nat)
    requires Carried(ds, c)
    ensures k < |ds| && ds[k].code == c && FirstOfCode(ds, k)
    decreases |ds|
  {
    if Carried(ds[..|ds| - 1], c) {
      k := CarriedHasFirst(ds[..|ds| - 1], c);
      assert ds[k] == ds[..|ds| - 1][k];
      assert forall j :: 0 <= j < k ==> ds[..|ds| - 1][j] == ds[j];
    } else {
      k := |ds| - 1;
      assert forall j :: 0 <= j < k ==> ds[..|ds| - 1][j] == ds[j];
    }
  }

  /** What a fresh map holds after a walk over header visits and then the reached descriptors. */
  ghost predicate Holds(features: map<uint16, seq<uint8>>, hs: seq<Visit>, reached: seq<Descriptor>)
    requires AllEncodable(reached)
  {
    && (forall c: uint16 :: c in features <==> Visited(hs, c) || Carried(reached, c))
    && (forall k: nat :: k < |hs| && IsFirst(hs, k) ==> hs[k].code in features && features[hs[k].code] == hs[k].item)
    && (forall k: nat :: k < |reached| && !Visited(hs, reached[k].code) && FirstOfCode(reached, k) ==>
          reached[k].code in features && features[reached[k].code] == EncodeDescriptor(reached[k]))
  }

  /**
   * The discovery of a fresh drive. If the vendor bytes lead to the descriptors, the map holds the codes seen in the
   * vendor bytes and those of the reached descriptors, each with the first item that carries it.
   */
  method Discover(ds: seq<Descriptor>, buffer: seq<uint8>, slack: nat -> uint8)
    returns (features: map<uint16, seq<uint8>>)
    requires MIN_BUFFER_LENGTH <= |buffer| < MIN_BUFFER_LENGTH + 1024
    requires AllEncodable(ds) && ds != [] && Response(buffer, ds)
    ensures Lands(buffer, STRUCT_HEADER) ==> Holds(features, HeaderVisits(buffer, slack, STRUCT_HEADER), Reached(ds))
    ensures ZeroHeader(buffer) ==> Holds(features, [ZERO_VISIT, ZERO_VISIT, ZERO_VISIT, ZERO_VISIT], Reached(ds))
  {
    hide FromBE32, Walk, EmplaceAll, EncodeDescriptor, EncodeDescriptors, Holds, Reached, ExpectedWalk, HeaderVisits,
         Lands, ZeroHeader;
    var info := new DriveInfo();
    var r := info.TcgDiscovery0(DparmResult(OK, 0, 0), buffer, slack);
    features := info.rawFeatures;
    WalkResponse(buffer, slack, ds);
    if ZeroHeader(buffer) {
      WalkZeros(buffer, slack);
    }
    if Lands(buffer, STRUCT_HEADER) {
      ExpectedHolds(HeaderVisits(buffer, slack, STRUCT_HEADER), ds);
    }
  }

  lemma ExpectedHolds(hs: seq<Visit>, ds: seq<Descriptor>)
    requires AllEncodable(ds) && ds != []
    ensures Holds(EmplaceAll(map[], ExpectedWalk(hs, ds)), hs, Reached(ds))
  {
    hide EmplaceAll, EncodeDescriptor, FirstOfCode, Carried, Reached, ExpectedWalk, Visited, IsFirst;
    var features, reached := EmplaceAll(map[], ExpectedWalk(hs, ds)), Reached(ds);
    forall c: uint16
      ensures c in features <==> Visited(hs, c) || Carried(reached, c)
    {
      DiscoveredKeys(hs, ds, c);
    }
    forall k: nat | k < |hs| && IsFirst(hs, k)
      ensures hs[k].code in features && features[hs[k].code] == hs[k].item
    {
      DiscoveredHeader(hs, ds, k);
    }
    forall k: nat | k < |reached| && !Visited(hs, reached[k].code) && FirstOfCode(reached, k)
      ensures reached[k].code in features && features[reached[k].code] == EncodeDescriptor(reached[k])
    {
      DiscoveredFirst(hs, ds, k);
    }
  }

  lemma DiscoveredHeader(hs: seq<Visit>, ds: seq<Descriptor>, k: nat)
    requires AllEncodable(ds) && ds != [] && k < |hs| && IsFirst(hs, k)
    ensures var m := EmplaceAll(map[], ExpectedWalk(hs, ds)); hs[k].code in m && m[hs[k].code] == hs[k].item
  {
    hide EmplaceAll, Reached;
    assert ExpectedWalk(hs, ds)[k] == hs[k];
    assert forall j :: 0 <= j < k ==> ExpectedWalk(hs, ds)[j] == hs[j];
    EmplaceKeepsFirst(map[], ExpectedWalk(hs, ds), k);
  }

  lemma DiscoveredKeys(hs: seq<Visit>, ds: seq<Descriptor>, c: uint16)
    requires AllEncodable(ds) && ds != []
    ensures c in EmplaceAll(map[], ExpectedWalk(hs, ds)) <==> Visited(hs, c) || Carried(Reached(ds), c)
  {
    hide EmplaceAll, Reached, Visited, Carried, VisitsOf;
    EmplaceKeys(map[], ExpectedWalk(hs, ds), c);
    VisitedAppend(hs, VisitsOf(Reached(ds)), c);
    VisitedIsCarried(Reached(ds), c);
  }

  lemma VisitedAppend(a: seq<Visit>, b: seq<Visit>, c: uint16)
    ensures Visited(a + b, c) <==> Visited(a, c) || Visited(b, c)
  {
    if Visited(a, c) {
      var k :| 0 <= k < |a| && a[k].code == c;
      assert (a + b)[k].code == c;
    }
    if Visited(b, c) {
      var k :| 0 <= k < |b| && b[k].code == c;
      assert (a + b)[|a| + k].code == c;
    }
  }

  lemma VisitedIsCarried(ds: seq<Descriptor>, c: uint16)
    requires AllEncodable(ds)
    ensures Visited(VisitsOf(ds), c) <==> Carried(ds, c)
  {
    hide EncodeDescriptor;
    var vs := VisitsOf(ds);
    if Visited(vs, c) {
      var k :| 0 <= k < |vs| && vs[k].code == c;
      assert ds[k].code == c;
    }
    if Carried(ds, c) {
      var k :| 0 <= k < |ds| && ds[k].code == c;
      assert vs[k].code == c;
    }
  }

  lemma DiscoveredFirst(hs: seq<Visit>, ds: seq<Descriptor>, k: nat)
    requires AllEncodable(ds) && ds != [] && k < |Reached(ds)|
    requires !Visited(hs, Reached(ds)[k].code) && FirstOfCode(Reached(ds), k)
    ensures var m, d := EmplaceAll(map[], ExpectedWalk(hs, ds)), Reached(ds)[k];
            d.code in m && m[d.code] == EncodeDescriptor(d)
  {
    hide EncodeDescriptor, EmplaceAll, Reached;
    var vs, reached, n := ExpectedWalk(hs, ds), Reached(ds), |hs|;
    assert vs[k + n] == Visit(reached[k].code, EncodeDescriptor(reached[k]));
    forall j | 0 <= j < k + n
      ensures vs[j].code != vs[k + n].code
    {
      if j < n {
        assert vs[j] == hs[j];
      } else {
        assert vs[j].code == reached[j - n].code;
      }
    }
    EmplaceKeepsFirst(map[], vs, k + n);
  }
}
