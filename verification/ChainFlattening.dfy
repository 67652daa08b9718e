/** Submitting a chained command stream link by link (src/winsys/submit.c, `submit_chain`), against
    a command processor that follows each chain packet itself. */
module ChainFlattening {
  import opened Pm4

  const MAX_CHAIN: nat := 16
  const IB_SIZE_MASK: nat := 0x10_0000 // the dword count is the word modulo this

  /** Memory as the shared address space shows it: the dword at each byte address. */
  type Image = nat -> Word

  /** What one driver submission names: `count` dwords from byte address `va`. */
  datatype Segment = Segment(va: nat, count: nat)

  function Fetch(mem: Image, va: nat, n: nat): (dw: seq<Word>)
    ensures |dw| == n && forall k :: 0 <= k < n ==> dw[k] == mem(va + 4 * k)
  {
    seq(n, k requires 0 <= k < n => mem(va + 4 * k))
  }

  function Target(dw: seq<Word>, i: nat): nat
    requires i + 3 < |dw|
  {
    dw[i + 1] + dw[i + 2] * TWO32
  }

  function TargetCount(dw: seq<Word>, i: nat): nat
    requires i + 3 < |dw|
  {
    dw[i + 3] % IB_SIZE_MASK
  }

  // ---- The reference: a command processor -----------------------------------------------------

  /** The packets executed, and whether the stream was followed to its end. */
  datatype Trace = Trace(packets: seq<seq<Word>>, ended: bool)

  function Min(a: nat, b: nat): nat { if a < b then a else b }

  /** Executes stream `dw` packet by packet from dword `i`, jumping at each chain packet; `links` is
      how many jumps it may still make. A type-1 header is passed on with everything after it. */
  function Cp(mem: Image, dw: seq<Word>, i: nat, links: nat): Trace
    requires i <= |dw| + 0x4001
    decreases links, |dw| + 0x4001 - i
  {
    if i >= |dw| then Trace([], true)
    else if Invalid(dw[i]) then Trace([dw[i..]], true)
    else if Chain(dw[i]) && i + 3 < |dw| then Jump(mem, dw, i, links)
    else
      var rest := Cp(mem, dw, i + Span(dw[i]), links);
      Trace([PacketAt(dw, i)] + rest.packets, rest.ended)
  }

  function Jump(mem: Image, dw: seq<Word>, i: nat, links: nat): Trace
    requires i + 3 < |dw|
    decreases links, 0
  {
    if TargetCount(dw, i) == 0 then Trace([], true)
    else if links == 0 then Trace([], false)
    else Cp(mem, Fetch(mem, Target(dw, i), TargetCount(dw, i)), 0, links - 1)
  }

  /** The packet at boundary `i`, cut off where the stream ends. */
  function PacketAt(dw: seq<Word>, i: nat): seq<Word>
    requires i < |dw|
  {
    dw[i..Min(i + Span(dw[i]), |dw|)]
  }

  /** Executes a stream that is not chained: the packets of `dw` from dword `i`. */
  function Plain(dw: seq<Word>, i: nat): seq<seq<Word>>
    requires i <= |dw| + 0x4001
    decreases |dw| + 0x4001 - i
  {
    if i >= |dw| then []
    else if Invalid(dw[i]) then [dw[i..]]
    else [PacketAt(dw, i)] + Plain(dw, i + Span(dw[i]))
  }

  /** Executes separately submitted segments one after the other. */
  function PlainAll(mem: Image, segs: seq<Segment>): seq<seq<Word>> {
    if segs == [] then []
    else Plain(Fetch(mem, segs[0].va, segs[0].count), 0) + PlainAll(mem, segs[1..])
  }

  // ---- The flattening -------------------------------------------------------------------------

  datatype Flat = Flat(segs: seq<Segment>, ended: bool)

  /** The submissions made for a stream when none is refused. */
  function Flatten(mem: Image, va: nat, n: nat, depth: nat): (f: Flat)
    ensures |f.segs| + depth <= if depth < MAX_CHAIN then MAX_CHAIN else depth
    decreases MAX_CHAIN - depth
  {
    if depth >= MAX_CHAIN then Flat([], false) else
    var dw := Fetch(mem, va, n);
    var i := ChainFrom(dw, 0);
    if i >= n then Flat([Segment(va, n)], true) else
    if TargetCount(dw, i) == 0 then Flat(Head(va, i), true) else
    var rest := Flatten(mem, Target(dw, i), TargetCount(dw, i), depth + 1);
    Flat(Head(va, i) + rest.segs, rest.ended)
  }

  /** Without a chain packet ahead, the command processor runs the stream as it is. */
  lemma {:induction false} CpPlain(mem: Image, dw: seq<Word>, i: nat, links: nat)
    requires i <= |dw| + 0x4001 && ChainFrom(dw, i) == |dw|
    ensures Cp(mem, dw, i, links) == Trace(Plain(dw, i), true)
    decreases |dw| + 0x4001 - i
  {
    if i < |dw| && !Invalid(dw[i]) {
      CpPlain(mem, dw, i + Span(dw[i]), links);
    }
  }

  /** With one ahead, it runs what comes before and then jumps. */
  lemma {:induction false} CpSplits(mem: Image, dw: seq<Word>, i: nat, r: nat, links: nat)
    requires i <= |dw| + 0x4001 && r == ChainFrom(dw, i) < |dw|
    ensures Cp(mem, dw, i, links) ==
      Trace(Plain(dw[..r], i) + Jump(mem, dw, r, links).packets, Jump(mem, dw, r, links).ended)
    decreases |dw| + 0x4001 - i
  {
    if i == r {
      assert Plain(dw[..r], i) == [];
    } else {
      var next := i + Span(dw[i]);
      CpSplits(mem, dw, next, r, links);
      PlainBefore(dw, i, r);
      var a, b, c := [PacketAt(dw, i)], Plain(dw[..r], next), Jump(mem, dw, r, links).packets;
      assert a + (b + c) == (a + b) + c;
    }
  }

  /** A packet that ends before `r` is executed alike in the stream and in its first `r` dwords. */
  lemma PlainBefore(dw: seq<Word>, i: nat, r: nat)
    requires i < r <= |dw| && !Invalid(dw[i]) && i + Span(dw[i]) <= r
    ensures Plain(dw[..r], i) == [PacketAt(dw, i)] + Plain(dw[..r], i + Span(dw[i]))
  {
    assert dw[..r][i] == dw[i];
    assert dw[..r][i..i + Span(dw[i])] == dw[i..i + Span(dw[i])];
  }

  lemma PlainOne(mem: Image, s: Segment)
    ensures PlainAll(mem, [s]) == Plain(Fetch(mem, s.va, s.count), 0)
  {
  }

  /** What is submitted for the part before a chain packet. */
  function Head(va: nat, i: nat): seq<Segment> {
    if i > 0 then [Segment(va, i)] else []
  }

  lemma HeadMeaning(mem: Image, va: nat, n: nat, i: nat)
    requires i <= n
    ensures PlainAll(mem, Head(va, i)) == Plain(Fetch(mem, va, n)[..i], 0)
  {
    assert Fetch(mem, va, i) == Fetch(mem, va, n)[..i];
    if i > 0 { PlainOne(mem, Segment(va, i)); }
  }

  /** The segments submitted for a stream, executed one after the other, are the packets of the
      command processor that follows at most as many links. */
  ghost predicate SameMeaning(mem: Image, va: nat, n: nat, depth: nat)
    requires depth < MAX_CHAIN
  {
    var f := Flatten(mem, va, n, depth);
    Cp(mem, Fetch(mem, va, n), 0, MAX_CHAIN - 1 - depth) == Trace(PlainAll(mem, f.segs), f.ended)
  }

  /** Flattening preserves meaning, for every memory, stream and depth. */
  lemma {:induction false} FlatteningPreservesMeaning(mem: Image, va: nat, n: nat, depth: nat)
    requires depth < MAX_CHAIN
    ensures SameMeaning(mem, va, n, depth)
    decreases MAX_CHAIN - depth
  {
    var dw := Fetch(mem, va, n);
    var i := ChainFrom(dw, 0);
    if i < n && depth + 1 < MAX_CHAIN {
      FlatteningPreservesMeaning(mem, Target(dw, i), TargetCount(dw, i), depth + 1);
    }
    StreamMeaning(mem, va, n, depth);
  }

  lemma StreamMeaning(mem: Image, va: nat, n: nat, depth: nat)
    requires depth < MAX_CHAIN
    requires var dw := Fetch(mem, va, n); var i := ChainFrom(dw, 0);
      i < n && depth + 1 < MAX_CHAIN ==> SameMeaning(mem, Target(dw, i), TargetCount(dw, i), depth + 1)
    ensures SameMeaning(mem, va, n, depth)
  {
    var dw := Fetch(mem, va, n);
    var i := ChainFrom(dw, 0);
    FlattenStep(mem, va, n, depth, i);
    if i >= n {
      LastMeaning(mem, va, n, MAX_CHAIN - 1 - depth);
    } else {
      JumpMeaning(mem, dw, i, depth);
      LinkMeaning(mem, va, n, i, MAX_CHAIN - 1 - depth, Rest(mem, Target(dw, i), TargetCount(dw, i), depth));
    }
  }

  /** The last stream of a chain is submitted and executed whole. */
  lemma LastMeaning(mem: Image, va: nat, n: nat, links: nat)
    requires ChainFrom(Fetch(mem, va, n), 0) == n
    ensures Cp(mem, Fetch(mem, va, n), 0, links) == Trace(PlainAll(mem, [Segment(va, n)]), true)
  {
    CpPlain(mem, Fetch(mem, va, n), 0, links);
    PlainOne(mem, Segment(va, n));
  }

  /** A jump means what is submitted for its target, if the target's flattening means its stream. */
  lemma JumpMeaning(mem: Image, dw: seq<Word>, i: nat, depth: nat)
    requires i + 3 < |dw| && depth < MAX_CHAIN
    requires depth + 1 < MAX_CHAIN ==> SameMeaning(mem, Target(dw, i), TargetCount(dw, i), depth + 1)
    ensures var rest := Rest(mem, Target(dw, i), TargetCount(dw, i), depth);
      Jump(mem, dw, i, MAX_CHAIN - 1 - depth) == Trace(PlainAll(mem, rest.segs), rest.ended)
  {
  }

  /** One link: if the rest means the jump, then head and rest mean the whole stream. */
  lemma LinkMeaning(mem: Image, va: nat, n: nat, i: nat, links: nat, rest: Flat)
    requires i == ChainFrom(Fetch(mem, va, n), 0) < n
    requires Jump(mem, Fetch(mem, va, n), i, links) == Trace(PlainAll(mem, rest.segs), rest.ended)
    ensures Cp(mem, Fetch(mem, va, n), 0, links) == Trace(PlainAll(mem, Head(va, i) + rest.segs), rest.ended)
  {
    CpSplits(mem, Fetch(mem, va, n), 0, i, links);
    HeadMeaning(mem, va, n, i);
    PlainAllAppend(mem, Head(va, i), rest.segs);
  }

  lemma {:induction false} PlainAllAppend(mem: Image, a: seq<Segment>, b: seq<Segment>)
    ensures PlainAll(mem, a + b) == PlainAll(mem, a) + PlainAll(mem, b)
  {
    if a == [] {
      assert a + b == b;
    } else {
      assert (a + b)[1..] == a[1..] + b;
      PlainAllAppend(mem, a[1..], b);
    }
  }

  /** Following more links only adds packets at the end, and none once the stream has ended. */
  lemma {:induction false} MoreLinks(mem: Image, dw: seq<Word>, i: nat, links: nat, more: nat)
    requires i <= |dw| + 0x4001 && links <= more
    ensures Cp(mem, dw, i, links).packets <= Cp(mem, dw, i, more).packets
    ensures Cp(mem, dw, i, links).ended ==> Cp(mem, dw, i, links) == Cp(mem, dw, i, more)
    decreases links, |dw| + 0x4001 - i
  {
    if i < |dw| && !Invalid(dw[i]) {
      if Chain(dw[i]) && i + 3 < |dw| {
        if TargetCount(dw, i) != 0 && links > 0 {
          MoreLinks(mem, Fetch(mem, Target(dw, i), TargetCount(dw, i)), 0, links - 1, more - 1);
        }
      } else {
        MoreLinks(mem, dw, i + Span(dw[i]), links, more);
      }
    }
  }

  /** A segment without a complete chain packet. */
  ghost predicate Chainless(mem: Image, s: Segment) {
    ChainFrom(Fetch(mem, s.va, s.count), 0) == s.count
  }

  /** No submitted segment holds a complete chain packet: the command processor never sees one. */
  lemma {:induction false} NoChainSubmitted(mem: Image, va: nat, n: nat, depth: nat)
    ensures forall s :: s in Flatten(mem, va, n, depth).segs ==> Chainless(mem, s)
    decreases MAX_CHAIN - depth
  {
    if depth < MAX_CHAIN {
      var dw := Fetch(mem, va, n);
      var i := ChainFrom(dw, 0);
      FlattenStep(mem, va, n, depth, i);
      if i < n {
        NoChainInHead(mem, va, n, i);
        NoChainSubmitted(mem, Target(dw, i), TargetCount(dw, i), depth + 1);
        assert forall s :: s in Head(va, i) ==> s == Segment(va, i);
      }
    }
  }

  lemma NoChainInHead(mem: Image, va: nat, n: nat, i: nat)
    requires i == ChainFrom(Fetch(mem, va, n), 0) < n
    ensures ChainFrom(Fetch(mem, va, i), 0) == i
  {
    assert Fetch(mem, va, i) == Fetch(mem, va, n)[..i];
    NoChainInPrefix(Fetch(mem, va, n), i, 0);
  }

  lemma {:induction false} NoChainInPrefix(dw: seq<Word>, r: nat, i: nat)
    requires i <= |dw| + 0x4001 && r == ChainFrom(dw, i) < |dw|
    ensures ChainFrom(dw[..r], i) == r
    decreases |dw| + 0x4001 - i
  {
    if i != r {
      NoChainInPrefix(dw, r, i + Span(dw[i]));
    }
  }

  // ---- The recursive code ---------------------------------------------------------------------

  /** Of the submissions `segs` tried from (`q`, `a`) the first `m` were accepted, giving (`q'`, `a'`);
      if not all were, the next one was refused. */
  ghost predicate Sent(q: seq<Segment>, a: nat, segs: seq<Segment>, m: nat, q': seq<Segment>, a': nat,
                       refuses: nat -> bool) {
    && m <= |segs| && q' == q + segs[..m]
    && a' == a + m + (if m < |segs| then 1 else 0)
    && (m < |segs| ==> refuses(a + m))
    && forall k :: a <= k < a + m ==> !refuses(k)
  }

  lemma SentThen(q: seq<Segment>, a: nat, head: seq<Segment>, q1: seq<Segment>, a1: nat,
                 rest: seq<Segment>, m: nat, q2: seq<Segment>, a2: nat, refuses: nat -> bool)
    requires Sent(q, a, head, |head|, q1, a1, refuses) && Sent(q1, a1, rest, m, q2, a2, refuses)
    ensures Sent(q, a, head + rest, |head| + m, q2, a2, refuses)
  {
  }

  lemma SentCut(q: seq<Segment>, a: nat, head: seq<Segment>, q1: seq<Segment>, a1: nat,
                rest: seq<Segment>, refuses: nat -> bool)
    requires Sent(q, a, head, 0, q1, a1, refuses) && head != []
    ensures Sent(q, a, head + rest, 0, q1, a1, refuses)
  {
  }

  /** What is submitted for the link a chain packet names; nothing for an empty one. */
  function Rest(mem: Image, target: nat, count: nat, depth: nat): Flat {
    if count == 0 then Flat([], true) else Flatten(mem, target, count, depth + 1)
  }

  lemma FlattenStep(mem: Image, va: nat, n: nat, depth: nat, i: nat)
    requires depth < MAX_CHAIN && i == ChainFrom(Fetch(mem, va, n), 0)
    ensures i >= n ==> Flatten(mem, va, n, depth) == Flat([Segment(va, n)], true)
    ensures i < n ==>
      var dw := Fetch(mem, va, n);
      var rest := Rest(mem, Target(dw, i), TargetCount(dw, i), depth);
      Flatten(mem, va, n, depth) == Flat(Head(va, i) + rest.segs, rest.ended)
  {
  }

  class Driver {
    /** What the driver has accepted, in order. */
    var queue: seq<Segment>
    var attempts: nat

    constructor ()
      ensures queue == [] && attempts == 0
    {
      queue, attempts := [], 0;
    }

    /** The driver may refuse any submission; `refuses` says which attempts. */
    method SubmitOne(va: nat, count: nat, refuses: nat -> bool) returns (ok: bool)
      modifies this
      ensures ok == !refuses(old(attempts))
      ensures Sent(old(queue), old(attempts), [Segment(va, count)], if ok then 1 else 0, queue, attempts, refuses)
    {
      ok := !refuses(attempts);
      attempts := attempts + 1;
      if ok {
        queue := queue + [Segment(va, count)];
      }
    }

    /** The part before a chain packet is submitted unless it is empty. */
    method SubmitHead(va: nat, i: nat, refuses: nat -> bool) returns (ok: bool)
      modifies this
      ensures var m := if ok then |Head(va, i)| else 0;
        && Sent(old(queue), old(attempts), Head(va, i), m, queue, attempts, refuses)
        && (!ok ==> Head(va, i) != [])
    {
      ok := true;
      if i > 0 {
        ok := SubmitOne(va, i, refuses);
      }
    }

    /** Submits a stream and every link it chains to. What is queued is a prefix of the flattening,
        cut only at a refusal; success means all of it was queued and the chain ended. */
    method SubmitChain(mem: Image, va: nat, bytes: nat, depth: nat, refuses: nat -> bool)
      returns (ok: bool, ghost m: nat)
      requires bytes < TWO32
      modifies this
      ensures var f := Flatten(mem, va, bytes / 4, depth);
        && Sent(old(queue), old(attempts), f.segs, m, queue, attempts, refuses)
        && (ok <==> m == |f.segs| && f.ended)
      decreases MAX_CHAIN - depth, 2
    {
      if depth >= MAX_CHAIN {
        return false, 0;
      }
      var n := bytes / 4;
      var dw := Fetch(mem, va, n);
      var i := WalkToChain(dw);
      FlattenStep(mem, va, n, depth, i);
      if i >= n {
        ok := SubmitOne(va, n, refuses);
        m := if ok then 1 else 0;
        return;
      }
      ok, m := SubmitLink(mem, va, i, Target(dw, i), TargetCount(dw, i), depth, refuses);
    }

    /** What a chain packet names: nothing, or a stream one level deeper. */
    method SubmitRest(mem: Image, target: nat, count: nat, depth: nat, refuses: nat -> bool)
      returns (ok: bool, ghost m: nat)
      requires depth < MAX_CHAIN && count < IB_SIZE_MASK
      modifies this
      ensures var rest := Rest(mem, target, count, depth);
        && Sent(old(queue), old(attempts), rest.segs, m, queue, attempts, refuses)
        && (ok <==> m == |rest.segs| && rest.ended)
      decreases MAX_CHAIN - depth, 0
    {
      if count == 0 {
        return true, 0;
      }
      assert count * 4 / 4 == count;
      ok, m := SubmitChain(mem, target, count * 4, depth + 1, refuses);
    }

    /** The part before a chain packet, then what the packet names. */
    method SubmitLink(mem: Image, va: nat, i: nat, target: nat, count: nat, depth: nat, refuses: nat -> bool)
      returns (ok: bool, ghost m: nat)
      requires depth < MAX_CHAIN && count < IB_SIZE_MASK
      modifies this
      ensures var rest := Rest(mem, target, count, depth);
        && Sent(old(queue), old(attempts), Head(va, i) + rest.segs, m, queue, attempts, refuses)
        && (ok <==> m == |Head(va, i) + rest.segs| && rest.ended)
      decreases MAX_CHAIN - depth, 1
    {
      ghost var q, a, rest := queue, attempts, Rest(mem, target, count, depth);
      ok := SubmitHead(va, i, refuses);
      ghost var q1, a1 := queue, attempts;
      if !ok {
        m := LinkSent(q, a, Head(va, i), false, q1, a1, rest, false, 0, q1, a1, refuses);
        return;
      }
      ok, m := SubmitRest(mem, target, count, depth, refuses);
      m := LinkSent(q, a, Head(va, i), true, q1, a1, rest, ok, m, queue, attempts, refuses);
    }
  }

  /** Head and rest together: a refused head ends it, otherwise the rest goes on from there. */
  lemma LinkSent(q: seq<Segment>, a: nat, head: seq<Segment>, sent: bool, q1: seq<Segment>, a1: nat,
                 rest: Flat, ok: bool, m: nat, q2: seq<Segment>, a2: nat, refuses: nat -> bool)
    returns (total: nat)
    requires Sent(q, a, head, if sent then |head| else 0, q1, a1, refuses) && (!sent ==> head != [])
    requires if sent then Sent(q1, a1, rest.segs, m, q2, a2, refuses) && (ok <==> m == |rest.segs| && rest.ended)
             else q2 == q1 && a2 == a1 && !ok
    ensures Sent(q, a, head + rest.segs, total, q2, a2, refuses)
    ensures ok <==> total == |head + rest.segs| && rest.ended
  {
    if sent {
      SentThen(q, a, head, q1, a1, rest.segs, m, q2, a2, refuses);
      total := |head| + m;
    } else {
      SentCut(q, a, head, q1, a1, rest.segs, refuses);
      total := 0;
    }
  }

  /** Whatever the driver refuses, what was queued is a prefix of what a command processor that
      follows the chain, however far, would execute. */
  lemma QueuedIsPrefix(mem: Image, va: nat, n: nat, depth: nat, m: nat, links: nat)
    requires depth < MAX_CHAIN <= links + depth + 1 && m <= |Flatten(mem, va, n, depth).segs|
    ensures PlainAll(mem, Flatten(mem, va, n, depth).segs[..m]) <= Cp(mem, Fetch(mem, va, n), 0, links).packets
  {
    var segs := Flatten(mem, va, n, depth).segs;
    PrefixMeaning(mem, segs, m);
    FlatteningPreservesMeaning(mem, va, n, depth);
    MoreLinks(mem, Fetch(mem, va, n), 0, MAX_CHAIN - 1 - depth, links);
  }

  lemma PrefixMeaning(mem: Image, segs: seq<Segment>, m: nat)
    requires m <= |segs|
    ensures PlainAll(mem, segs[..m]) <= PlainAll(mem, segs)
  {
    PlainAllAppend(mem, segs[..m], segs[m..]);
    assert segs == segs[..m] + segs[m..];
  }

  /** A chain that ends within the bound is executed exactly, however many links it could follow;
      a longer one is reported as a failure; and at most 16 submissions are ever made. */
  lemma WholeChainIff(mem: Image, va: nat, n: nat, depth: nat, links: nat)
    requires depth < MAX_CHAIN <= links + depth + 1
    ensures var f := Flatten(mem, va, n, depth); var dw := Fetch(mem, va, n);
      && (f.ended <==> Cp(mem, dw, 0, MAX_CHAIN - 1 - depth).ended)
      && (f.ended ==> Cp(mem, dw, 0, links) == Trace(PlainAll(mem, f.segs), true))
      && |f.segs| <= MAX_CHAIN - depth
  {
    FlatteningPreservesMeaning(mem, va, n, depth);
    MoreLinks(mem, Fetch(mem, va, n), 0, MAX_CHAIN - 1 - depth, links);
  }
}
