/** PM4 command streams: packet headers, and the search for the first chain packet
    (src/winsys/submit.c). */
module Pm4 {
  import opened Wrappers

  const TWO32: nat := 0x1_0000_0000

  type Word = x: int | 0 <= x < TWO32

  const NOP: Word := 0xffff_1000
  const INDIRECT_BUFFER: nat := 0x3f

  function Type(h: Word): nat { h / 0x4000_0000 }
  function Opcode(h: Word): nat { h / 0x100 % 0x100 }
  function Count(h: Word): nat { h / 0x1_0000 % 0x4000 }

  predicate Single(h: Word) { h == NOP || Type(h) == 2 }
  predicate Invalid(h: Word) { Type(h) == 1 }
  predicate Chain(h: Word) { Type(h) == 3 && Opcode(h) == INDIRECT_BUFFER }

  /** How many dwords a packet spans. */
  function Span(h: Word): nat {
    if Single(h) then 1 else Count(h) + 2
  }

  /** The header with these fields: type in bits 31:30, count in 29:16, opcode in 15:8. */
  function Header(kind: nat, count: nat, opcode: nat, low: nat): Word
    requires kind < 4 && count < 0x4000 && opcode < 0x100 && low < 0x100
  {
    kind * 0x4000_0000 + count * 0x1_0000 + opcode * 0x100 + low
  }

  lemma QuotientRemainder(q: nat, r: nat, d: nat)
    requires r < d
    ensures (q * d + r) / d == q && (q * d + r) % d == r
  {
    var a := q * d + r;
    var x := a / d - q;
    assert a == d * (a / d) + a % d;
    assert d * x == r - a % d;
    SmallMultiple(d, x);
  }

  lemma SmallMultiple(d: int, x: int)
    requires d >= 0
    ensures x >= 1 ==> d * x >= d
    ensures x <= -1 ==> d * x <= -d
  {
    if x >= 1 { assert d * x == d + d * (x - 1); }
    if x <= -1 { assert d * x == -d + d * (x + 1); }
  }

  /** A header is read back field by field. */
  lemma HeaderFields(kind: nat, count: nat, opcode: nat, low: nat)
    requires kind < 4 && count < 0x4000 && opcode < 0x100 && low < 0x100
    ensures var h := Header(kind, count, opcode, low);
      Type(h) == kind && Count(h) == count && Opcode(h) == opcode && h % 0x100 == low
  {
    QuotientRemainder(kind, count * 0x1_0000 + opcode * 0x100 + low, 0x4000_0000);
    QuotientRemainder(kind * 0x4000 + count, opcode * 0x100 + low, 0x1_0000);
    QuotientRemainder(kind, count, 0x4000);
    QuotientRemainder((kind * 0x4000 + count) * 0x100 + opcode, low, 0x100);
    QuotientRemainder(kind * 0x4000 + count, opcode, 0x100);
  }

  lemma NopFields(kind: nat, count: nat, opcode: nat, low: nat)
    requires kind < 4 && count < 0x4000 && opcode < 0x100 && low < 0x100
    ensures Header(kind, count, opcode, low) == NOP <==> kind == 3 && count == 0x3fff && opcode == 0x10 && low == 0
  {
    HeaderFields(kind, count, opcode, low);
    HeaderFields(3, 0x3fff, 0x10, 0);
    assert Header(3, 0x3fff, 0x10, 0) == NOP;
  }

  lemma EveryWordIsAHeader(h: Word)
    ensures exists kind: nat, count: nat, opcode: nat, low: nat ::
      kind < 4 && count < 0x4000 && opcode < 0x100 && low < 0x100 && h == Header(kind, count, opcode, low)
  {
    var q := h / 0x100;
    var p := q / 0x100;
    assert h == q * 0x100 + h % 0x100 && q == p * 0x100 + q % 0x100 && p == p / 0x4000 * 0x4000 + p % 0x4000;
    assert h == Header(p / 0x4000, p % 0x4000, q % 0x100, h % 0x100);
  }

  /** What a header says: type 1 is invalid, type 2 and the one-dword NOP stand alone, and every other
      packet has its count and one more dword after the header; chains are type 3 with opcode 0x3f. */
  lemma HeaderMeaning(kind: nat, count: nat, opcode: nat, low: nat)
    requires kind < 4 && count < 0x4000 && opcode < 0x100 && low < 0x100
    ensures var h := Header(kind, count, opcode, low);
      && (Invalid(h) <==> kind == 1)
      && Span(h) == (if kind == 2 || (kind == 3 && count == 0x3fff && opcode == 0x10 && low == 0) then 1 else count + 2)
      && (Chain(h) <==> kind == 3 && opcode == 0x3f)
  {
    HeaderFields(kind, count, opcode, low);
    NopFields(kind, count, opcode, low);
  }

  /** uint32_t addition. */
  function Add32(a: nat, b: nat): nat { (a + b) % TWO32 }

  // ---- Packet boundaries ----------------------------------------------------------------------

  /** Where the `k`th packet starts; nothing once the walk has met a type-1 header or the end. */
  function Walk(dw: seq<Word>, k: nat): Option<nat> {
    if k == 0 then Some(0) else
    match Walk(dw, k - 1)
    case None => None
    case Some(i) => if i < |dw| && !Invalid(dw[i]) then Some(i + Span(dw[i])) else None
  }

  ghost predicate Boundary(dw: seq<Word>, i: nat) {
    i < |dw| && exists k :: Walk(dw, k) == Some(i)
  }

  /** A packet boundary with a chain header and the three dwords after it. */
  ghost predicate ChainAt(dw: seq<Word>, i: nat) {
    Boundary(dw, i) && Chain(dw[i]) && i + 3 < |dw|
  }

  lemma {:induction false} WalkEnds(dw: seq<Word>, k: nat, m: nat)
    requires k <= m && Walk(dw, k).None?
    ensures Walk(dw, m).None?
  {
    if k < m {
      WalkEnds(dw, k, m - 1);
    }
  }

  lemma {:induction false} WalkGrows(dw: seq<Word>, k: nat, m: nat)
    requires k < m && Walk(dw, m).Some?
    ensures Walk(dw, k).Some? && Walk(dw, k).value < Walk(dw, m).value
  {
    if k < m - 1 {
      WalkGrows(dw, k, m - 1);
    }
  }

  /** After `k` packets, none of them a complete chain, only later packets can be one. */
  ghost predicate PassedOver(dw: seq<Word>, k: nat, i: nat) {
    && Walk(dw, k) == Some(i)
    && forall m :: 0 <= m < k ==> !(Walk(dw, m).Some? && ChainAt(dw, Walk(dw, m).value))
  }

  lemma NoneBefore(dw: seq<Word>, k: nat, i: nat, j: nat)
    requires PassedOver(dw, k, i) && ChainAt(dw, j)
    ensures i <= j && i < |dw| && (i == j || !Invalid(dw[i]))
  {
    var m: nat :| Walk(dw, m) == Some(j);
    assert m < k ==> !ChainAt(dw, j);
    if k < m {
      WalkGrows(dw, k, m);
      if Walk(dw, k + 1).None? { WalkEnds(dw, k + 1, m); }
    }
  }

  // ---- The 32-bit index -----------------------------------------------------------------------

  /** The loop of oops_winsys_find_chain leaves at index `i`. */
  predicate Stops(dw: seq<Word>, i: nat) {
    i >= |dw| || (!Single(dw[i]) && (Invalid(dw[i]) || (Chain(dw[i]) && Add32(i, 3) < |dw|)))
  }

  /** The uint32_t index after `k` turns of the loop. */
  function Index32(dw: seq<Word>, k: nat): nat {
    if k == 0 then 0 else
    var i := Index32(dw, k - 1);
    if Stops(dw, i) then i else Add32(i, Span(dw[i]))
  }

  ghost predicate Ends(dw: seq<Word>) {
    exists k: nat :: Stops(dw, Index32(dw, k))
  }

  lemma AddExact(i: nat, h: Word)
    requires i + 0x4001 < TWO32
    ensures i < Add32(i, Span(h)) == i + Span(h) <= i + 0x4001
  {
  }

  lemma {:induction false} IndexGrows(dw: seq<Word>, k: nat)
    requires |dw| + 0x4000 < TWO32
    ensures Stops(dw, Index32(dw, k)) || Index32(dw, k) >= k
  {
    if k > 0 {
      IndexGrows(dw, k - 1);
      var i := Index32(dw, k - 1);
      if i < |dw| { AddExact(i, dw[i]); }
    }
  }

  /** Fillers up to a last header that claims the longest packet. */
  function Overlong(n: nat): (dw: seq<Word>)
    ensures |dw| == n
  {
    seq(n, i => if i == n - 1 then 0x3fff_0000 else NOP)
  }

  lemma {:induction false} OverlongWalk(n: nat, k: nat)
    requires k < n
    ensures Walk(Overlong(n), k) == Some(k)
  {
    if k > 0 {
      OverlongWalk(n, k - 1);
    }
  }

  lemma {:induction false} OverlongNeverStops(n: nat, k: nat)
    requires n < TWO32 <= n + 0x4000
    ensures Index32(Overlong(n), k) < n && !Stops(Overlong(n), Index32(Overlong(n), k))
  {
    if k > 0 {
      OverlongNeverStops(n, k - 1);
    }
  }

  /** The index is exact at every packet boundary of every stream of `n` dwords if and only if the
      longest packet that starts inside it ends below 2^32. */
  lemma IndexNeverWrapsIff(n: nat)
    requires 0 < n < TWO32
    ensures (forall dw: seq<Word>, i: nat :: |dw| == n && Boundary(dw, i) ==> Add32(i, Span(dw[i])) == i + Span(dw[i]))
            <==> n + 0x4000 < TWO32
  {
    if n + 0x4000 >= TWO32 {
      var dw := Overlong(n);
      OverlongWalk(n, n - 1);
      assert Boundary(dw, n - 1) && Add32(n - 1, Span(dw[n - 1])) != n - 1 + Span(dw[n - 1]);
    }
  }

  /** The loop ends on every stream of `n` dwords if and only if the same holds: beyond, fillers and
      one overlong packet send the index round for ever. */
  lemma LoopEndsIff(n: nat)
    requires n < TWO32
    ensures (forall dw: seq<Word> :: |dw| == n ==> Ends(dw)) <==> n + 0x4000 < TWO32
  {
    if n + 0x4000 < TWO32 {
      forall dw: seq<Word> | |dw| == n ensures Ends(dw) {
        IndexGrows(dw, n);
        assert Stops(dw, Index32(dw, n));
      }
    } else {
      forall k: nat ensures !Stops(Overlong(n), Index32(Overlong(n), k)) {
        OverlongNeverStops(n, k);
      }
      assert !Ends(Overlong(n));
    }
  }

  // ---- The answer as a function ---------------------------------------------------------------

  /** The first complete chain packet at or after boundary `i`. */
  function ChainFrom(dw: seq<Word>, i: nat): (r: nat)
    requires i <= |dw| + 0x4001
    ensures r <= |dw| && (r < |dw| ==> i <= r && r + 3 < |dw| && Chain(dw[r]))
    decreases |dw| + 0x4001 - i
  {
    if i >= |dw| || Invalid(dw[i]) then |dw|
    else if Chain(dw[i]) && i + 3 < |dw| then i
    else ChainFrom(dw, i + Span(dw[i]))
  }

  lemma {:induction false} ChainFromSpec(dw: seq<Word>, k: nat, i: nat)
    requires i <= |dw| + 0x4001 && PassedOver(dw, k, i)
    ensures var r := ChainFrom(dw, i);
      (r < |dw| ==> ChainAt(dw, r)) && forall j :: ChainAt(dw, j) ==> r <= j && r < |dw|
    decreases |dw| + 0x4001 - i
  {
    forall j | ChainAt(dw, j) ensures i <= j && i < |dw| && (i == j || !Invalid(dw[i])) {
      NoneBefore(dw, k, i, j);
    }
    if i < |dw| && !Invalid(dw[i]) && !(Chain(dw[i]) && i + 3 < |dw|) {
      ChainFromSpec(dw, k + 1, i + Span(dw[i]));
    }
  }

  /** One turn of the loop: the search goes on behind a packet that is not the answer. */
  lemma ChainFromStep(dw: seq<Word>, i: nat)
    requires i < |dw| && |dw| + 0x4000 < TWO32
    ensures var h := dw[i];
      && Add32(i, 3) == i + 3 && Add32(i, Span(h)) == i + Span(h) <= |dw| + 0x4000
      && (Invalid(h) ==> ChainFrom(dw, i) == |dw|)
      && (!Invalid(h) && Chain(h) && i + 3 < |dw| ==> ChainFrom(dw, i) == i)
      && (!Invalid(h) && !(Chain(h) && i + 3 < |dw|) ==> ChainFrom(dw, i) == ChainFrom(dw, i + Span(h)))
      && (Single(h) ==> !Invalid(h) && !Chain(h))
  {
  }

  /** The loop of oops_winsys_find_chain, in its 32-bit arithmetic. */
  method WalkToChain(dw: seq<Word>) returns (r: nat)
    requires |dw| + 0x4000 < TWO32
    ensures r == ChainFrom(dw, 0)
    ensures exists k: nat :: Stops(dw, Index32(dw, k)) && (r < |dw| ==> r == Index32(dw, k))
  {
    var i := 0;
    ghost var turns: nat := 0;
    while i < |dw|
      invariant i <= |dw| + 0x4001 && ChainFrom(dw, i) == ChainFrom(dw, 0)
      invariant i == Index32(dw, turns)
      decreases |dw| + 0x4001 - i
    {
      var header := dw[i];
      ChainFromStep(dw, i);
      turns := turns + 1;
      if header == NOP {
        i := Add32(i, 1);
      } else if Type(header) == 2 {
        i := Add32(i, 1);
      } else if Type(header) == 1 {
        return |dw|;
      } else if Type(header) == 3 && Opcode(header) == INDIRECT_BUFFER && Add32(i, 3) < |dw| {
        return i;
      } else {
        i := Add32(i, Count(header) + 2);
      }
    }
    return |dw|;
  }

  /** What oops_winsys_find_chain returns: the least complete chain packet, or the length. */
  method FindChain(dw: seq<Word>) returns (r: nat)
    requires |dw| + 0x4000 < TWO32
    ensures r <= |dw|
    ensures r < |dw| ==> ChainAt(dw, r)
    ensures forall j :: ChainAt(dw, j) ==> r <= j && r < |dw|
    ensures r == ChainFrom(dw, 0)
  {
    r := WalkToChain(dw);
    ChainFromSpec(dw, 0, 0);
  }

  /** Only header dwords matter: streams that agree on the dwords at packet boundaries have the
      same first chain, whatever their payloads. */
  lemma HeadersDecide(dw: seq<Word>, dw': seq<Word>)
    requires |dw| == |dw'| && forall i: nat :: Boundary(dw, i) ==> dw[i] == dw'[i]
    ensures ChainFrom(dw, 0) == ChainFrom(dw', 0)
  {
    HeadersDecideFrom(dw, dw', 0, 0);
  }

  lemma {:induction false} HeadersDecideFrom(dw: seq<Word>, dw': seq<Word>, k: nat, i: nat)
    requires |dw| == |dw'| && (forall j: nat :: Boundary(dw, j) ==> dw[j] == dw'[j])
    requires i <= |dw| + 0x4001 && Walk(dw, k) == Some(i)
    ensures ChainFrom(dw, i) == ChainFrom(dw', i)
    decreases |dw| + 0x4001 - i
  {
    if i < |dw| {
      assert Boundary(dw, i);
      if !Invalid(dw[i]) && !(Chain(dw[i]) && i + 3 < |dw|) {
        HeadersDecideFrom(dw, dw', k + 1, i + Span(dw[i]));
      }
    }
  }

  // ---- Packet lists ---------------------------------------------------------------------------

  datatype Packet = Packet(header: Word, payload: seq<Word>)

  predicate WellFormed(p: Packet) {
    !Invalid(p.header) && |p.payload| + 1 == Span(p.header)
  }

  function Encode(ps: seq<Packet>): seq<Word> {
    if ps == [] then [] else [ps[0].header] + ps[0].payload + Encode(ps[1..])
  }

  /** The whole packets a stream starts with. */
  function Decode(dw: seq<Word>): seq<Packet>
    decreases |dw|
  {
    if dw == [] || Invalid(dw[0]) || Span(dw[0]) > |dw| then []
    else [Packet(dw[0], dw[1..Span(dw[0])])] + Decode(dw[Span(dw[0])..])
  }

  lemma {:induction false} DecodeEncode(ps: seq<Packet>)
    requires forall p :: p in ps ==> WellFormed(p)
    ensures Decode(Encode(ps)) == ps
  {
    if ps != [] {
      var dw := Encode(ps);
      assert ps[0] in ps && WellFormed(ps[0]);
      assert dw[1..Span(dw[0])] == ps[0].payload;
      assert dw[Span(dw[0])..] == Encode(ps[1..]);
      DecodeEncode(ps[1..]);
    }
  }

  lemma EncodeCons(p: Packet, ps: seq<Packet>)
    ensures Encode([p] + ps) == [p.header] + p.payload + Encode(ps)
  {
    assert ([p] + ps)[1..] == ps;
  }

  lemma PrefixJoin(dw: seq<Word>, n: nat, e: seq<Word>)
    requires n <= |dw| && e <= dw[n..]
    ensures dw[..n] + e <= dw
  {
  }

  /** Decoding loses nothing it accepts: the packets re-encode to a prefix of the stream. */
  lemma {:induction false} EncodeDecode(dw: seq<Word>)
    ensures Encode(Decode(dw)) <= dw
    ensures forall p :: p in Decode(dw) ==> WellFormed(p)
    decreases |dw|
  {
    if dw != [] && !Invalid(dw[0]) && Span(dw[0]) <= |dw| {
      var n := Span(dw[0]);
      var p, rest := Packet(dw[0], dw[1..n]), Decode(dw[n..]);
      EncodeDecode(dw[n..]);
      EncodeCons(p, rest);
      PrefixJoin(dw, n, Encode(rest));
      assert [p.header] + p.payload == dw[..n] && WellFormed(p);
    }
  }

  /** Where packet `k` of a list starts. */
  function Offset(ps: seq<Packet>, k: nat): nat
    requires k <= |ps|
  {
    |Encode(ps[..k])|
  }

  /** Packet `k` of the list is a chain packet with three dwords after its header. */
  predicate Complete(ps: seq<Packet>, k: nat) {
    k < |ps| && Chain(ps[k].header) && Offset(ps, k) + 3 < |Encode(ps)|
  }

  /** `r` is where the first complete chain packet from packet `k` on starts, or the length. */
  ghost predicate FirstComplete(ps: seq<Packet>, k: nat, r: nat) {
    if r == |Encode(ps)| then forall m: nat :: k <= m ==> !Complete(ps, m)
    else exists m :: k <= m && Complete(ps, m) && r == Offset(ps, m) && forall l: nat :: k <= l < m ==> !Complete(ps, l)
  }

  /** In an encoded packet list, the chain found is the first complete chain packet of the list. */
  lemma ChainOfEncoded(ps: seq<Packet>)
    requires forall p :: p in ps ==> WellFormed(p)
    ensures FirstComplete(ps, 0, ChainFrom(Encode(ps), 0))
  {
    ChainOfEncodedFrom(ps, 0);
    assert Offset(ps, 0) == 0;
  }

  lemma FirstCompleteStep(ps: seq<Packet>, k: nat, r: nat)
    requires k < |ps|
    ensures Complete(ps, k) ==> FirstComplete(ps, k, Offset(ps, k))
    ensures !Complete(ps, k) && FirstComplete(ps, k + 1, r) ==> FirstComplete(ps, k, r)
  {
  }

  lemma Associate(a: seq<Word>, b: seq<Word>, c: seq<Word>)
    ensures (a + b) + c == a + (b + c)
  {
  }

  lemma {:induction false} EncodeAppend(ps: seq<Packet>, qs: seq<Packet>)
    ensures Encode(ps + qs) == Encode(ps) + Encode(qs)
  {
    if ps == [] {
      assert ps + qs == qs;
    } else {
      var p, rest := ps[0], ps[1..];
      EncodeAppend(rest, qs);
      EncodeCons(p, rest);
      EncodeCons(p, rest + qs);
      assert ps == [p] + rest && ps + qs == [p] + (rest + qs);
      Associate([p.header] + p.payload, Encode(rest), Encode(qs));
    }
  }

  lemma EncodeParts(ps: seq<Packet>, a: seq<Packet>, b: seq<Packet>)
    requires ps == a + b
    ensures Encode(ps) == Encode(a) + Encode(b)
  {
    EncodeAppend(a, b);
  }

  lemma Parts(ps: seq<Packet>, k: nat)
    requires k < |ps|
    ensures ps == ps[..k + 1] + ps[k + 1..] && ps[..k + 1] == ps[..k] + [ps[k]]
  {
  }

  lemma EncodeOne(p: Packet)
    ensures Encode([p]) == [p.header] + p.payload
  {
    EncodeCons(p, []);
    assert [p] + [] == [p];
  }

  lemma OffsetStep(ps: seq<Packet>, k: nat)
    requires k < |ps| && WellFormed(ps[k])
    ensures Offset(ps, k + 1) == Offset(ps, k) + Span(ps[k].header) <= |Encode(ps)|
    ensures Offset(ps, k) < |Encode(ps)| && Encode(ps)[Offset(ps, k)] == ps[k].header
  {
    Parts(ps, k);
    EncodeParts(ps, ps[..k + 1], ps[k + 1..]);
    EncodeParts(ps[..k + 1], ps[..k], [ps[k]]);
    EncodeOne(ps[k]);
  }

  lemma {:induction false} ChainOfEncodedFrom(ps: seq<Packet>, k: nat)
    requires k <= |ps| && forall p :: p in ps ==> WellFormed(p)
    ensures Offset(ps, k) <= |Encode(ps)|
    ensures FirstComplete(ps, k, ChainFrom(Encode(ps), Offset(ps, k)))
    decreases |ps| - k
  {
    if k == |ps| {
      assert ps[..k] == ps;
    } else {
      assert ps[k] in ps;
      OffsetStep(ps, k);
      ChainOfEncodedFrom(ps, k + 1);
      FirstCompleteStep(ps, k, ChainFrom(Encode(ps), Offset(ps, k + 1)));
    }
  }
}
