/** The SLIP framing of the wpan_serial sample: the encoder and the byte-at-a-time decoder,
    and what becomes of payloads sent through both.  The framing is that of the PROTOCOL
    section of RFC 1055, without the optional leading END. */
module SlipCodec {
  import opened Bytes
  import opened Options

  const END: byte := 192
  const ESC: byte := 219
  const ESC_END: byte := 220
  const ESC_ESC: byte := 221

  function EncodeByte(b: byte): seq<byte> {
    if b == END then [ESC, ESC_END] else if b == ESC then [ESC, ESC_ESC] else [b]
  }

  function EncodeBytes(p: seq<byte>): seq<byte> {
    if p == [] then [] else EncodeBytes(p[..|p| - 1]) + EncodeByte(p[|p| - 1])
  }

  function Encode(p: seq<byte>): seq<byte> {
    EncodeBytes(p) + [END]
  }

  /** END only ever ends a packet, and the worst-case buffer is large enough. */
  lemma {:induction false} EncodedShape(p: seq<byte>)
    ensures END !in EncodeBytes(p)
    ensures |p| <= |EncodeBytes(p)| <= 2 * |p|
    ensures |Encode(p)| <= 2 * |p| + 1 && Encode(p)[|Encode(p)| - 1] == END
  {
    if p != [] {
      EncodedShape(p[..|p| - 1]);
    }
  }

  datatype SlipState = Garbage | Ok | Esc

  /** The decoder: its state, and the packet being filled, if any. */
  datatype Rx = Rx(state: SlipState, pkt: Option<seq<byte>>)

  /** A byte from the host, and whether a packet could be allocated at that moment. */
  datatype Arrival = Arrival(c: byte, alloc: bool)

  /** A decoded byte goes into the current packet, which is allocated on demand and thrown
      away, together with the byte, when its buffer is full. */
  function Store(cap: nat, pkt: Option<seq<byte>>, c: byte, alloc: bool): Option<seq<byte>> {
    if pkt.None? && !alloc then None
    else
      var data := if pkt.None? then [] else pkt.value;
      if |data| < cap then Some(data + [c]) else None
  }

  /** slip_process_byte and the delivery of a full packet in interrupt_handler. */
  function Step(cap: nat, rx: Rx, a: Arrival): (Rx, seq<seq<byte>>) {
    match rx.state
    case Garbage => (if a.c == END then rx.(state := Ok) else rx, [])
    case Esc =>
      if a.c == ESC_END then (Rx(Ok, Store(cap, rx.pkt, END, a.alloc)), [])
      else if a.c == ESC_ESC then (Rx(Ok, Store(cap, rx.pkt, ESC, a.alloc)), [])
      else (rx.(state := Garbage), [])
    case Ok =>
      if a.c == ESC then (rx.(state := Esc), [])
      else if a.c == END then (Rx(Ok, None), if rx.pkt.Some? then [rx.pkt.value] else [])
      else (Rx(Ok, Store(cap, rx.pkt, a.c, a.alloc)), [])
  }

  datatype Received = Received(rx: Rx, packets: seq<seq<byte>>)

  function Run(cap: nat, rx: Rx, input: seq<Arrival>): Received {
    if input == [] then Received(rx, [])
    else
      var before := Run(cap, rx, input[..|input| - 1]);
      var (after, delivered) := Step(cap, before.rx, input[|input| - 1]);
      Received(after, before.packets + delivered)
  }

  lemma {:induction false} RunAppend(cap: nat, rx: Rx, s: seq<Arrival>, t: seq<Arrival>)
    ensures var first := Run(cap, rx, s);
      var second := Run(cap, first.rx, t);
      Run(cap, rx, s + t) == Received(second.rx, first.packets + second.packets)
  {
    if t == [] {
      assert s + t == s;
    } else {
      var m := |t| - 1;
      assert (s + t)[..|s + t| - 1] == s + t[..m];
      RunAppend(cap, rx, s, t[..m]);
    }
  }

  /** Bytes that arrive while allocation succeeds. */
  function Good(bytes: seq<byte>): (input: seq<Arrival>)
    ensures |input| == |bytes| && forall i :: 0 <= i < |bytes| ==> input[i] == Arrival(bytes[i], true)
  {
    seq(|bytes|, i requires 0 <= i < |bytes| => Arrival(bytes[i], true))
  }

  /** Whatever came before, three ENDs leave the decoder ready with nothing pending. */
  lemma ThreeEndsSynchronise(cap: nat, rx: Rx, a: bool, b: bool, c: bool)
    ensures Run(cap, rx, [Arrival(END, a), Arrival(END, b), Arrival(END, c)]).rx == Rx(Ok, None)
  {
    var input := [Arrival(END, a), Arrival(END, b), Arrival(END, c)];
    assert input[..2][..1][..0] == [];
    assert Run(cap, rx, input[..2][..1][..0]) == Received(rx, []);
    assert Run(cap, rx, input[..2][..1]).rx == Step(cap, rx, input[0]).0;
    assert Run(cap, rx, input[..2]).rx == Step(cap, Run(cap, rx, input[..2][..1]).rx, input[1]).0;
  }

  /** Two are enough exactly when the first does not follow an ESC with a packet under way: there
      it is taken for garbage, and the second one ends the garbage but not the packet. */
  lemma TwoEndsSynchronise(cap: nat, rx: Rx, a: bool, b: bool)
    ensures Run(cap, rx, [Arrival(END, a), Arrival(END, b)]).rx == Rx(Ok, None)
      <==> rx.state != Esc || rx.pkt.None?
  {
    var input := [Arrival(END, a), Arrival(END, b)];
    assert input[..1][..0] == [];
    assert Run(cap, rx, input[..1][..0]) == Received(rx, []);
    assert Run(cap, rx, input[..1]).rx == Step(cap, rx, input[0]).0;
  }

  /** A run in which they are not: an END right after an ESC is taken for garbage, and the packet
      before it is still there afterwards. */
  lemma TwoEndsDoNot(cap: nat)
    requires 0 < cap
    ensures Run(cap, Rx(Ok, None), Good([1, ESC, END, END])).rx == Rx(Ok, Some([1]))
  {
    var input := Good([1, ESC, END, END]);
    assert input[..3][..2][..1][..0] == [];
    assert Run(cap, Rx(Ok, None), input[..3][..2][..1][..0]).rx == Rx(Ok, None);
    assert [] + [1] == [1];
    assert Run(cap, Rx(Ok, None), input[..3][..2][..1]).rx == Rx(Ok, Some([1]));
    assert Run(cap, Rx(Ok, None), input[..3][..2]).rx == Rx(Esc, Some([1]));
    assert Run(cap, Rx(Ok, None), input[..3]).rx == Rx(Garbage, Some([1]));
  }

  // Byte by byte, in the codes of RFC 1055: 192 END, 219 ESC, 220 and 221 for them after an ESC

  lemma EncodeCodes(p: seq<byte>, b: byte)
    ensures Encode([]) == [192]
    ensures var code := if b == 192 then [219, 220] else if b == 219 then [219, 221] else [b];
      Encode(p + [b]) == EncodeBytes(p) + code + [192]
    ensures Encode(p) == EncodeBytes(p) + [192]
  {
    assert (p + [b])[..|p|] == p;
    assert EncodeBytes([]) + [END] == [192];
  }

  lemma OneStep(cap: nat, rx: Rx, a: Arrival)
    ensures var (after, delivered) := Step(cap, rx, a); Run(cap, rx, [a]) == Received(after, delivered)
  {
    assert [a][..0] == [];
    assert Run(cap, rx, [a][..0]) == Received(rx, []);
  }

  lemma TwoSteps(cap: nat, rx: Rx, a: Arrival, b: Arrival)
    ensures var (after, first) := Step(cap, rx, a);
      var (last, second) := Step(cap, after, b);
      Run(cap, rx, [a, b]) == Received(last, first + second)
  {
    assert [a, b][..1] == [a];
    OneStep(cap, rx, a);
  }

  /** A byte of data: the first of a packet is lost when no packet can be allocated; one for which
      there is no room is lost together with the packet; any other is appended. */
  predicate Stored(cap: nat, pkt: Option<seq<byte>>, c: byte, alloc: bool, after: Option<seq<byte>>) {
    match pkt
    case None => after == if alloc && 0 < cap then Some([c]) else None
    case Some(data) => after == if |data| < cap then Some(data + [c]) else None
  }

  lemma DataByte(cap: nat, pkt: Option<seq<byte>>, c: byte, alloc: bool)
    requires c != 192 && c != 219
    ensures var r := Run(cap, Rx(Ok, pkt), [Arrival(c, alloc)]);
      r.packets == [] && r.rx.state == Ok && Stored(cap, pkt, c, alloc, r.rx.pkt)
  {
    OneStep(cap, Rx(Ok, pkt), Arrival(c, alloc));
    assert [] + [c] == [c];
  }

  /** An escaped byte is stored like any other; only at its second half a packet may be allocated. */
  lemma EscapedByte(cap: nat, pkt: Option<seq<byte>>, first: bool, alloc: bool)
    ensures var r := Run(cap, Rx(Ok, pkt), [Arrival(219, first), Arrival(220, alloc)]);
      r.packets == [] && r.rx.state == Ok && Stored(cap, pkt, 192, alloc, r.rx.pkt)
    ensures var r := Run(cap, Rx(Ok, pkt), [Arrival(219, first), Arrival(221, alloc)]);
      r.packets == [] && r.rx.state == Ok && Stored(cap, pkt, 219, alloc, r.rx.pkt)
  {
    TwoSteps(cap, Rx(Ok, pkt), Arrival(219, first), Arrival(220, alloc));
    TwoSteps(cap, Rx(Ok, pkt), Arrival(219, first), Arrival(221, alloc));
    assert [END] == [] + [END] && [ESC] == [] + [ESC];
  }

  /** The end of a packet delivers it, if there is one. */
  lemma EndByte(cap: nat, pkt: Option<seq<byte>>, alloc: bool)
    ensures Run(cap, Rx(Ok, pkt), [Arrival(192, alloc)])
         == Received(Rx(Ok, None), if pkt.Some? then [pkt.value] else [])
  {
    OneStep(cap, Rx(Ok, pkt), Arrival(192, alloc));
  }

  lemma {:induction false} GarbageStays(cap: nat, pkt: Option<seq<byte>>, rest: seq<Arrival>)
    requires forall i :: 0 <= i < |rest| ==> rest[i].c != 192
    ensures Run(cap, Rx(Garbage, pkt), rest) == Received(Rx(Garbage, pkt), [])
  {
    if rest != [] {
      GarbageStays(cap, pkt, rest[..|rest| - 1]);
    }
  }

  /** An escape followed by any byte but 220 and 221 is garbage, and so is all that follows up to and
      including the next END: nothing is stored or delivered, and the packet before it is kept. */
  lemma BadEscape(cap: nat, pkt: Option<seq<byte>>, first: bool, c: byte, second: bool, rest: seq<Arrival>, last: bool)
    requires c != 220 && c != 221 && forall i :: 0 <= i < |rest| ==> rest[i].c != 192
    ensures Run(cap, Rx(Ok, pkt), [Arrival(219, first), Arrival(c, second)] + rest + [Arrival(192, last)])
         == Received(Rx(Ok, pkt), [])
  {
    var start, end := [Arrival(219, first), Arrival(c, second)], [Arrival(192, last)];
    TwoSteps(cap, Rx(Ok, pkt), start[0], start[1]);
    GarbageStays(cap, pkt, rest);
    OneStep(cap, Rx(Garbage, pkt), end[0]);
    RunAppend(cap, Rx(Ok, pkt), start, rest);
    RunAppend(cap, Rx(Ok, pkt), start + rest, end);
  }

  /** The packet after storing all of p in an empty decoder. */
  function Kept(cap: nat, p: seq<byte>): Option<seq<byte>> {
    if |p| % (cap + 1) == 0 then None else Some(p[|p| - |p| % (cap + 1)..])
  }

  lemma ModuloNext(n: nat, m: nat)
    requires 0 < m
    ensures (n + 1) % m == if n % m + 1 == m then 0 else n % m + 1
  {
    var q, r := n / m, n % m;
    assert n == m * q + r;
    if r + 1 == m {
      Divisible(n + 1, m, q + 1, 0);
    } else {
      Divisible(n + 1, m, q, r + 1);
    }
  }

  lemma Divisible(n: nat, m: nat, q: nat, r: nat)
    requires 0 < m && r < m && n == m * q + r
    ensures n % m == r
  {
    Unique(m, n / m, n % m, q, r);
  }

  lemma Unique(m: nat, a: nat, b: nat, q: nat, r: nat)
    requires b < m && r < m && m * a + b == m * q + r
    ensures a == q && b == r
  {
    Larger(m, a, q);
    Larger(m, q, a);
  }

  lemma Larger(m: nat, a: nat, q: nat)
    ensures a < q ==> m * a + m <= m * q
  {
    if a < q {
      Times(m, a + 1, q);
    }
  }

  lemma Times(m: nat, a: nat, b: nat)
    requires a <= b
    ensures m * a <= m * b
  {
  }

  lemma StoreKeeps(cap: nat, p: seq<byte>, c: byte)
    ensures Store(cap, Kept(cap, p), c, true) == Kept(cap, p + [c])
  {
    ModuloNext(|p|, cap + 1);
    StoreTail(cap, p, c, |p| % (cap + 1), (|p| + 1) % (cap + 1));
  }

  lemma StoreTail(cap: nat, p: seq<byte>, c: byte, kept: nat, next: nat)
    requires kept <= |p| && kept <= cap && next == if kept == cap then 0 else kept + 1
    ensures Store(cap, if kept == 0 then None else Some(p[|p| - kept..]), c, true)
         == if next == 0 then None else Some((p + [c])[|p| + 1 - next..])
  {
    assert p[|p| - kept..] + [c] == (p + [c])[|p| - kept..];
    assert p[|p|..] == [];
  }

  lemma NothingKept(cap: nat)
    ensures Kept(cap, []) == None && forall rx :: Run(cap, rx, []) == Received(rx, [])
  {
  }

  /** The escapes are undone byte by byte. */
  lemma {:induction false} DecodePayload(cap: nat, p: seq<byte>)
    ensures Run(cap, Rx(Ok, None), Good(EncodeBytes(p))) == Received(Rx(Ok, Kept(cap, p)), [])
  {
    hide Run, Step, Store, Kept, EncodeByte;
    if p == [] {
      NothingKept(cap);
    } else {
      var m := |p| - 1;
      var code := EncodeByte(p[m]);
      DecodePayload(cap, p[..m]);
      assert Good(EncodeBytes(p)) == Good(EncodeBytes(p[..m])) + Good(code);
      RunAppend(cap, Rx(Ok, None), Good(EncodeBytes(p[..m])), Good(code));
      DecodeByte(cap, Kept(cap, p[..m]), p[m]);
      StoreKeeps(cap, p[..m], p[m]);
      assert p[..m] + [p[m]] == p;
    }
  }

  lemma DecodeByte(cap: nat, pkt: Option<seq<byte>>, b: byte)
    ensures Run(cap, Rx(Ok, pkt), Good(EncodeByte(b))) == Received(Rx(Ok, Store(cap, pkt, b, true)), [])
  {
    var input := Good(EncodeByte(b));
    if |input| == 2 {
      assert input[..1][..0] == [];
      assert Run(cap, Rx(Ok, pkt), input[..1]) == Received(Rx(Esc, pkt), []);
    } else {
      assert input[..0] == [];
    }
  }

  /** What a payload of any length comes out as: its last |p| modulo cap + 1 bytes. */
  function Out(cap: nat, p: seq<byte>): seq<seq<byte>> {
    if Kept(cap, p).None? then [] else [Kept(cap, p).value]
  }

  lemma EncodeDecode(cap: nat, p: seq<byte>)
    ensures Run(cap, Rx(Ok, None), Good(Encode(p))) == Received(Rx(Ok, None), Out(cap, p))
  {
    DecodePayload(cap, p);
    assert Good(Encode(p)) == Good(EncodeBytes(p)) + Good([END]);
    RunAppend(cap, Rx(Ok, None), Good(EncodeBytes(p)), Good([END]));
    assert Good([END])[..0] == [];
  }

  /** The round trip: a payload comes back, once and whole, exactly when it is not empty and
      fits the receive buffer; the decoder is back where it was in every case. */
  lemma RoundTrip(cap: nat, p: seq<byte>)
    ensures Run(cap, Rx(Ok, None), Good(Encode(p))).rx == Rx(Ok, None)
    ensures Run(cap, Rx(Ok, None), Good(Encode(p))).packets == [p] <==> 0 < |p| <= cap
  {
    EncodeDecode(cap, p);
    if |p| <= cap {
      Divisible(|p|, cap + 1, 0, |p|);
    }
  }

  function EncodeAll(ps: seq<seq<byte>>): seq<byte> {
    if ps == [] then [] else EncodeAll(ps[..|ps| - 1]) + Encode(ps[|ps| - 1])
  }

  lemma {:induction false} StreamRoundTrip(cap: nat, ps: seq<seq<byte>>)
    requires forall i :: 0 <= i < |ps| ==> 0 < |ps[i]| <= cap
    ensures Run(cap, Rx(Ok, None), Good(EncodeAll(ps))) == Received(Rx(Ok, None), ps)
  {
    hide Run, Encode, Kept;
    if ps == [] {
      NothingKept(cap);
    } else {
      var m := |ps| - 1;
      StreamRoundTrip(cap, ps[..m]);
      RoundTrip(cap, ps[m]);
      assert Good(EncodeAll(ps)) == Good(EncodeAll(ps[..m])) + Good(Encode(ps[m]));
      RunAppend(cap, Rx(Ok, None), Good(EncodeAll(ps[..m])), Good(Encode(ps[m])));
    }
  }

  /** Self-synchronisation: after any bytes and any allocation failures whatever, three ENDs,
      and then the encodings of any non-empty payloads that fit, exactly those are delivered. */
  lemma SelfSynchronisation(cap: nat, rx: Rx, noise: seq<Arrival>, a: bool, b: bool, c: bool, ps: seq<seq<byte>>)
    requires forall i :: 0 <= i < |ps| ==> 0 < |ps[i]| <= cap
    ensures var prefix := noise + [Arrival(END, a), Arrival(END, b), Arrival(END, c)];
      && Run(cap, rx, prefix).rx == Rx(Ok, None)
      && Run(cap, rx, prefix + Good(EncodeAll(ps))) == Received(Rx(Ok, None), Run(cap, rx, prefix).packets + ps)
  {
    var ends := [Arrival(END, a), Arrival(END, b), Arrival(END, c)];
    RunAppend(cap, rx, noise, ends);
    ThreeEndsSynchronise(cap, Run(cap, rx, noise).rx, a, b, c);
    StreamRoundTrip(cap, ps);
    RunAppend(cap, rx, noise + ends, Good(EncodeAll(ps)));
  }

  predicate Fits(cap: nat, pkt: Option<seq<byte>>) {
    pkt.Some? ==> 0 < |pkt.value| <= cap
  }

  /** On any input, every packet delivered has at least one byte and fits the buffer. */
  lemma {:induction false} DeliveredFit(cap: nat, rx: Rx, input: seq<Arrival>)
    requires Fits(cap, rx.pkt)
    ensures Fits(cap, Run(cap, rx, input).rx.pkt)
    ensures forall i :: 0 <= i < |Run(cap, rx, input).packets| ==> 0 < |Run(cap, rx, input).packets[i]| <= cap
  {
    if input != [] {
      DeliveredFit(cap, rx, input[..|input| - 1]);
    }
  }
}
