/** Chains as they are laid out in memory, link by link, and what `submit_chain` makes of them
    (src/winsys/submit.c): the packet format is built here from its meaning. */
module ChainLayout {
  import opened Pm4
  import opened ChainFlattening

  const TWO64: nat := 0x1_0000_0000_0000_0000
  const TWO20: nat := 0x10_0000

  /** The chain packet that names `count` dwords at `target`; `low` and `high` are the bits of its
      first and last dword that do not matter. */
  function ChainPacket(target: nat, count: nat, low: nat, high: nat): (dw: seq<Word>)
    requires target < TWO64 && count < TWO20 && low < 0x100 && high < 0x1000
    ensures |dw| == 4
  {
    [Header(3, 2, 0x3f, low), target % TWO32, target / TWO32, high * TWO20 + count]
  }

  lemma TargetDecoded(dw: seq<Word>, i: nat, target: nat, count: nat)
    requires i + 3 < |dw| && target < TWO64 && count < TWO20
    requires dw[i + 1] == target % TWO32 && dw[i + 2] == target / TWO32 && dw[i + 3] % TWO20 == count
    ensures Target(dw, i) == target && TargetCount(dw, i) == count
  {
  }

  /** One link: behind the part before the chain packet goes what the packet names, at its 64-bit
      address and of its 20-bit length, on both sides: in the submissions and in the command processor. */
  lemma ChainTaken(mem: Image, va: nat, n: nat, depth: nat, target: nat, count: nat)
    requires depth + 1 < MAX_CHAIN && target < TWO64 && count < TWO20
    requires var dw := Fetch(mem, va, n); var i := ChainFrom(dw, 0);
      i < n && dw[i + 1] == target % TWO32 && dw[i + 2] == target / TWO32 && dw[i + 3] % TWO20 == count
    ensures var i := ChainFrom(Fetch(mem, va, n), 0); var f := Flatten(mem, va, n, depth);
      var head := if i > 0 then [Segment(va, i)] else [];
      if count == 0 then f == Flat(head, true)
      else f.segs == head + Flatten(mem, target, count, depth + 1).segs && f.ended == Flatten(mem, target, count, depth + 1).ended
    ensures var dw := Fetch(mem, va, n); var i := ChainFrom(dw, 0);
      forall links: nat :: links > 0 && count > 0 ==> Jump(mem, dw, i, links) == Cp(mem, Fetch(mem, target, count), 0, links - 1)
  {
    var dw := Fetch(mem, va, n);
    var i := ChainFrom(dw, 0);
    TargetDecoded(dw, i, target, count);
    FlattenStep(mem, va, n, depth, i);
  }

  // ---- The first chain packet behind a body ---------------------------------------------------

  /** Whole packets, none of them a chain. */
  ghost predicate Body(ps: seq<Packet>) {
    forall p :: p in ps ==> WellFormed(p) && !Chain(p.header)
  }

  lemma {:induction false} ChainShift(pre: seq<Word>, dw: seq<Word>, i: nat)
    requires i <= |dw| + 0x4001
    ensures ChainFrom(pre + dw, |pre| + i) == |pre| + ChainFrom(dw, i)
    decreases |dw| + 0x4001 - i
  {
    if i < |dw| {
      assert (pre + dw)[|pre| + i] == dw[i];
      if !Invalid(dw[i]) && !(Chain(dw[i]) && i + 3 < |dw|) {
        ChainShift(pre, dw, i + Span(dw[i]));
      }
    }
  }

  lemma FirstPacketPassed(p: Packet, dw: seq<Word>)
    requires WellFormed(p) && !Chain(p.header)
    ensures ChainFrom([p.header] + p.payload + dw, 0) == Span(p.header) + ChainFrom(dw, 0)
  {
    var pre := [p.header] + p.payload;
    assert (pre + dw)[0] == p.header && |pre| == Span(p.header);
    ChainShift(pre, dw, 0);
  }

  /** A body is passed over packet by packet, whatever its payloads look like. */
  lemma {:induction false} BodyPassed(ps: seq<Packet>, tail: seq<Word>)
    requires Body(ps)
    ensures ChainFrom(Encode(ps) + tail, 0) == |Encode(ps)| + ChainFrom(tail, 0)
  {
    if ps == [] {
      assert Encode(ps) + tail == tail;
    } else {
      var p, rest := ps[0], Encode(ps[1..]);
      assert p in ps;
      BodyPassed(ps[1..], tail);
      FirstPacketPassed(p, rest + tail);
      assert Encode(ps) + tail == [p.header] + p.payload + (rest + tail);
    }
  }

  lemma ChainPacketFound(target: nat, count: nat, low: nat, high: nat)
    requires target < TWO64 && count < TWO20 && low < 0x100 && high < 0x1000
    ensures ChainFrom(ChainPacket(target, count, low, high), 0) == 0
  {
    HeaderMeaning(3, 2, 0x3f, low);
  }

  // ---- Whole chains ---------------------------------------------------------------------------

  /** One link: its packets and where they are. */
  datatype Link = Link(va: nat, body: seq<Packet>, low: nat, high: nat)

  /** The dwords of a link: its packets and, unless it is the last, the four of a chain packet. */
  function Size(links: seq<Link>): nat
    requires links != []
  {
    |Encode(links[0].body)| + if |links| == 1 then 0 else 4
  }

  /** In memory every link stands at its address, followed by the chain packet that names the next. */
  ghost predicate LaidOut(mem: Image, links: seq<Link>)
    requires links != []
    decreases |links|
  {
    var l := links[0];
    && Body(l.body) && l.va < TWO64 && l.low < 0x100 && l.high < 0x1000 && Size(links) < TWO20
    && (if |links| == 1 then Fetch(mem, l.va, Size(links)) == Encode(l.body)
        else
          && LaidOut(mem, links[1..])
          && Fetch(mem, l.va, Size(links)) == Encode(l.body) + ChainPacket(links[1].va, Size(links[1..]), l.low, l.high))
  }

  /** One submission for every link that holds a packet. */
  function Bodies(links: seq<Link>): seq<Segment> {
    if links == [] then []
    else (if Encode(links[0].body) == [] then [] else [Segment(links[0].va, |Encode(links[0].body)|)]) + Bodies(links[1..])
  }

  lemma OneLink(mem: Image, l: Link, depth: nat)
    requires depth < MAX_CHAIN && LaidOut(mem, [l]) && l.body != []
    ensures Flatten(mem, l.va, Size([l]), depth) == Flat(Bodies([l]), true)
  {
    BodyPassed(l.body, []);
    BodyEmpty(l.body);
    assert Encode(l.body) + [] == Encode(l.body);
    assert Bodies([l]) == [Segment(l.va, |Encode(l.body)|)] + Bodies([]);
  }

  lemma MoreLinksBehind(mem: Image, links: seq<Link>, depth: nat)
    requires |links| > 1 && depth + 1 < MAX_CHAIN && LaidOut(mem, links)
    requires var rest := links[1..];
      Size(rest) == 0 || Flatten(mem, rest[0].va, Size(rest), depth + 1) == Flat(Bodies(rest), true)
    ensures Flatten(mem, links[0].va, Size(links), depth) == Flat(Bodies(links), true)
  {
    var rest := links[1..];
    LinkFound(mem, links);
    ChainTaken(mem, links[0].va, Size(links), depth, rest[0].va, Size(rest));
    if Size(rest) == 0 {
      EmptyEnd(rest);
      assert Bodies(links) == Head(links[0].va, |Encode(links[0].body)|) + [];
    }
  }

  /** A chain of links is submitted as its bodies, in order, each at its own address and with its own
      length, and without its chain packets; it is always followed to its end. */
  lemma {:induction false} ChainSubmitsItsLinks(mem: Image, links: seq<Link>, depth: nat)
    requires links != [] && |links| + depth <= MAX_CHAIN && LaidOut(mem, links)
    requires |links| > 1 || links[0].body != []
    ensures Flatten(mem, links[0].va, Size(links), depth) == Flat(Bodies(links), true)
    decreases |links|
  {
    if |links| == 1 {
      assert links == [links[0]];
      OneLink(mem, links[0], depth);
    } else {
      if Size(links[1..]) != 0 {
        LastNotEmpty(links[1..]);
        ChainSubmitsItsLinks(mem, links[1..], depth + 1);
      }
      MoreLinksBehind(mem, links, depth);
    }
  }

  lemma BodyEmpty(ps: seq<Packet>)
    ensures Encode(ps) == [] <==> ps == []
  {
  }

  lemma LastNotEmpty(links: seq<Link>)
    requires links != [] && Size(links) != 0
    ensures |links| > 1 || links[0].body != []
  {
  }

  lemma EmptyEnd(links: seq<Link>)
    requires links != [] && Size(links) == 0
    ensures Bodies(links) == []
  {
    assert links[1..] == [];
  }

  lemma PacketFields(target: nat, count: nat, low: nat, high: nat)
    requires target < TWO64 && count < TWO20 && low < 0x100 && high < 0x1000
    ensures var p := ChainPacket(target, count, low, high);
      p[1] == target % TWO32 && p[2] == target / TWO32 && p[3] % TWO20 == count
  {
  }

  lemma BehindBody(body: seq<Word>, packet: seq<Word>, dw: seq<Word>)
    requires |packet| == 4 && dw == body + packet
    ensures var i := |body|;
      i + 3 < |dw| && dw[i + 1] == packet[1] && dw[i + 2] == packet[2] && dw[i + 3] == packet[3]
  {
  }

  lemma LinkFound(mem: Image, links: seq<Link>)
    requires |links| > 1 && LaidOut(mem, links)
    ensures var l := links[0]; var dw := Fetch(mem, l.va, Size(links)); var i := |Encode(l.body)|;
      && ChainFrom(dw, 0) == i && i + 3 < |dw|
      && dw[i + 1] == links[1].va % TWO32 && dw[i + 2] == links[1].va / TWO32 && dw[i + 3] % TWO20 == Size(links[1..])
  {
    var l, target, count := links[0], links[1].va, Size(links[1..]);
    assert LaidOut(mem, links[1..]) && links[1..][0] == links[1];
    var packet := ChainPacket(target, count, l.low, l.high);
    BodyPassed(l.body, packet);
    ChainPacketFound(target, count, l.low, l.high);
    PacketFields(target, count, l.low, l.high);
    BehindBody(Encode(l.body), packet, Fetch(mem, l.va, Size(links)));
  }

  // ---- What is executed -----------------------------------------------------------------------

  /** The dwords of each packet, in order. */
  function Words(ps: seq<Packet>): seq<seq<Word>> {
    if ps == [] then [] else [[ps[0].header] + ps[0].payload] + Words(ps[1..])
  }

  function AllWords(links: seq<Link>): seq<seq<Word>> {
    if links == [] then [] else Words(links[0].body) + AllWords(links[1..])
  }

  /** The first packet of an encoded list, at dword `i` of a stream that ends with the list. */
  lemma FirstPacketAt(dw: seq<Word>, i: nat, ps: seq<Packet>)
    requires ps != [] && WellFormed(ps[0]) && i <= |dw| && dw[i..] == Encode(ps)
    ensures i < |dw| && dw[i] == ps[0].header && i + Span(ps[0].header) <= |dw|
    ensures PacketAt(dw, i) == [ps[0].header] + ps[0].payload
    ensures dw[i + Span(ps[0].header)..] == Encode(ps[1..])
  {
    var first, rest := [ps[0].header] + ps[0].payload, Encode(ps[1..]);
    assert dw[i..] == first + rest && |first| == Span(ps[0].header);
    assert dw[i] == dw[i..][0];
    assert dw[i..i + |first|] == dw[i..][..|first|];
    assert dw[i + |first|..] == dw[i..][|first|..];
  }

  lemma FirstPacketRuns(dw: seq<Word>, i: nat, ps: seq<Packet>) returns (next: nat)
    requires ps != [] && WellFormed(ps[0]) && i <= |dw| && dw[i..] == Encode(ps)
    ensures i < next <= |dw| && dw[next..] == Encode(ps[1..])
    ensures Plain(dw, i) == [[ps[0].header] + ps[0].payload] + Plain(dw, next)
  {
    FirstPacketAt(dw, i, ps);
    next := i + Span(ps[0].header);
  }

  ghost predicate AllWellFormed(ps: seq<Packet>) {
    forall p :: p in ps ==> WellFormed(p)
  }

  lemma {:induction false} PlainWords(dw: seq<Word>, i: nat, ps: seq<Packet>)
    requires i <= |dw| && dw[i..] == Encode(ps) && AllWellFormed(ps)
    ensures Plain(dw, i) == Words(ps)
    decreases |ps|
  {
    if ps == [] {
      assert i == |dw|;
    } else {
      assert ps[0] in ps;
      var next := FirstPacketRuns(dw, i, ps);
      PlainWords(dw, next, ps[1..]);
    }
  }

  lemma LinkExecuted(mem: Image, links: seq<Link>)
    requires links != [] && LaidOut(mem, links)
    ensures Fetch(mem, links[0].va, |Encode(links[0].body)|) == Encode(links[0].body)
    ensures Plain(Encode(links[0].body), 0) == Words(links[0].body)
  {
    var l := links[0];
    var whole, part := Fetch(mem, l.va, Size(links)), Fetch(mem, l.va, |Encode(l.body)|);
    assert part == whole[..|Encode(l.body)|];
    PlainWords(Encode(l.body), 0, l.body);
  }

  lemma {:induction false} BodiesExecuted(mem: Image, links: seq<Link>)
    requires links != [] && LaidOut(mem, links)
    ensures PlainAll(mem, Bodies(links)) == AllWords(links)
    decreases |links|
  {
    var l := links[0];
    var n := |Encode(l.body)|;
    LinkExecuted(mem, links);
    BodyEmpty(l.body);
    if |links| > 1 { BodiesExecuted(mem, links[1..]); } else { assert links[1..] == []; }
    var first := if n == 0 then [] else [Segment(l.va, n)];
    PlainAllAppend(mem, first, Bodies(links[1..]));
    if n != 0 { PlainOne(mem, Segment(l.va, n)); }
  }

  /** A chain of links, submitted and executed, is the packets of the links in order, word for word;
      and that is what a command processor that follows the chain executes. */
  lemma ChainExecutesItsLinks(mem: Image, links: seq<Link>)
    requires links != [] && |links| <= MAX_CHAIN && LaidOut(mem, links) && (|links| > 1 || links[0].body != [])
    ensures PlainAll(mem, Flatten(mem, links[0].va, Size(links), 0).segs) == AllWords(links)
    ensures Cp(mem, Fetch(mem, links[0].va, Size(links)), 0, MAX_CHAIN - 1) == Trace(AllWords(links), true)
  {
    ChainSubmitsItsLinks(mem, links, 0);
    BodiesExecuted(mem, links);
    FlatteningPreservesMeaning(mem, links[0].va, Size(links), 0);
  }
}
