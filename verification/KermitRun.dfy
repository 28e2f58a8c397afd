/** Whole Kermit transfers: which data reaches the file when packets are repeated or
    damaged. */
module KermitRun {
  import opened Octets
  import opened KermitCode
  import opened KermitReceiver

  // ------------------------------------------------------------------
  // What is sent

  /** A transfer: packets numbered modulo 64, the first negotiates, the last ends it. */
  ghost predicate Transfer(ps: seq<Packet>) {
    && |ps| >= 2 && ps[0].kind == Send && ps[|ps| - 1].kind == Break
    && (forall i {:trigger ps[i]} | 0 <= i < |ps| :: ps[i].n == i % 64)
    && (forall i {:trigger ps[i]} | 0 < i < |ps| - 1 :: ps[i].kind == Data || ps[i].kind == Other)
  }

  ghost function Quote(ps: seq<Packet>): byte
    requires ps != []
  {
    QuoteOf(ps[0].payload)
  }

  /** Whether a prefix is pending before the i-th packet. */
  function Pending(ps: seq<Packet>, q: byte, i: nat): bool
    requires i <= |ps|
  {
    if i == 0 then false
    else if ps[i - 1].kind == Data then Unescape(Pending(ps, q, i - 1), q, ps[i - 1].payload).1
    else Pending(ps, q, i - 1)
  }

  /** The data of the i-th packet. */
  function Piece(ps: seq<Packet>, q: byte, i: nat): seq<byte>
    requires i < |ps|
  {
    if ps[i].kind == Data then Unescape(Pending(ps, q, i), q, ps[i].payload).0 else []
  }

  /** The data of the first j packets but for those that are lost. */
  function Kept(ps: seq<Packet>, q: byte, lost: set<nat>, j: nat): seq<byte>
    requires j <= |ps|
  {
    if j == 0 then [] else Kept(ps, q, lost, j - 1) + if j - 1 in lost then [] else Piece(ps, q, j - 1)
  }

  // ------------------------------------------------------------------
  // What happens on the line

  datatype Event = Event(index: nat, fault: Fault)

  /** The sender repeats a packet as often as it likes, and goes on to the next only after
      the last copy it sent has arrived. */
  ghost predicate Legal(ps: seq<Packet>, es: seq<Event>) {
    && es != [] && es[0].index == 0
    && (forall k {:trigger es[k]} | 0 <= k < |es| :: es[k].index < |ps| && NumberSeen(ps[es[k].index], es[k].fault))
    && (forall k {:trigger Follows(es, k)} | 0 < k < |es| :: Follows(es, k))
    && (forall k {:trigger es[k]} | 0 <= k < |es| - 1 && es[k].fault == Intact :: es[k].index < |ps| - 1)
  }

  /** The packet is whole, or damaged after its sequence number was read right. */
  predicate NumberSeen(p: Packet, f: Fault) {
    match f
    case Intact => true
    case Early => false
    case Header(seen) => seen == p.n
    case Late(seen, got) => seen == p.n
  }

  ghost predicate Follows(es: seq<Event>, k: int)
    requires 0 < k < |es|
  {
    es[k].index == es[k - 1].index || (es[k].index == es[k - 1].index + 1 && es[k - 1].fault == Intact)
  }

  /** The first copy of a packet. */
  ghost predicate FirstCopy(es: seq<Event>, k: int)
    requires 0 <= k < |es|
  {
    k == 0 || es[k].index != es[k - 1].index
  }

  /** The packets whose successor's first copy is damaged. */
  ghost function Lost(es: seq<Event>): set<nat> {
    if es == [] then {} else
    var k := |es| - 1;
    Lost(es[..k]) + if FirstCopy(es, k) && es[k].fault != Intact && es[k].index > 0 then {es[k].index - 1} else {}
  }

  function Received(ps: seq<Packet>, es: seq<Event>): Receiver
    requires forall k {:trigger es[k]} | 0 <= k < |es| :: es[k].index < |ps|
  {
    if es == [] then Begun()
    else
      var e := es[|es| - 1];
      StepOf(Received(ps, es[..|es| - 1]), ps[e.index], e.fault)
  }

  lemma ReceivedMore(ps: seq<Packet>, es: seq<Event>, e: Event)
    requires e.index < |ps| && forall j {:trigger es[j]} | 0 <= j < |es| :: es[j].index < |ps|
    ensures Received(ps, es + [e]) == StepOf(Received(ps, es), ps[e.index], e.fault)
  {
    assert (es + [e])[..|es|] == es;
  }

  // ------------------------------------------------------------------
  // The state after each packet

  ghost predicate Good(ps: seq<Packet>, lost: set<nat>, i: nat, f: Fault, r: Receiver)
    requires i < |ps| && ps != []
  {
    var q := Quote(ps);
    && r.lastN == i % 64 && r.saved == Pending(ps, q, i)
    && (i > 0 || f == Intact ==> r.quote == q)
    && (f == Intact ==> r.cur == [] && r.escape == Pending(ps, q, i + 1))
    && (f != Intact ==> r.escape == r.saved)
    && (f == Intact && ps[i].kind == Break ==> r.out == Kept(ps, q, lost, i) && r.held == [])
    && (f == Intact && ps[i].kind != Break ==> r.out == Kept(ps, q, lost, i) && r.held == Piece(ps, q, i))
    && (f != Intact ==> r.out == Kept(ps, q, lost, i))
  }

  lemma {:induction false} KeptSame(ps: seq<Packet>, q: byte, a: set<nat>, b: set<nat>, j: nat)
    requires j <= |ps| && forall m | 0 <= m < j :: m in a <==> m in b
    ensures Kept(ps, q, a, j) == Kept(ps, q, b, j)
  {
    if j > 0 {
      KeptSame(ps, q, a, b, j - 1);
    }
  }

  lemma NextNumber(i: nat)
    ensures (i + 1) % 64 != i % 64
  {
  }

  /** A copy of the packet that came last. */
  lemma Repeat(ps: seq<Packet>, lost: set<nat>, i: nat, g: Fault, f: Fault, r: Receiver)
    requires Transfer(ps) && i < |ps| && Good(ps, lost, i, g, r) && NumberSeen(ps[i], f) && (g == Intact ==> i < |ps| - 1)
    ensures Good(ps, lost, i, f, StepOf(r, ps[i], f))
  {
    hide Unescape, Kept;
    assert ps[i].n == r.lastN;
  }

  /** The first copy of the next packet.  When it is damaged, what was held of the packet
      before goes with it. */
  lemma Advance(ps: seq<Packet>, lost: set<nat>, i: nat, f: Fault, r: Receiver)
    requires Transfer(ps) && i + 1 < |ps| && Good(ps, lost, i, Intact, r) && NumberSeen(ps[i + 1], f) && forall m | m in lost :: m < i
    ensures Good(ps, if f == Intact then lost else lost + {i}, i + 1, f, StepOf(r, ps[i + 1], f))
  {
    hide Unescape;
    var q := Quote(ps);
    NextNumber(i);
    assert ps[i + 1].n != r.lastN;
    assert Kept(ps, q, lost, i + 1) == Kept(ps, q, lost, i) + Piece(ps, q, i);
    if f != Intact {
      var lost' := lost + {i};
      KeptSame(ps, q, lost, lost', i);
      assert Kept(ps, q, lost', i + 1) == Kept(ps, q, lost', i) + [];
    }
  }

  lemma Start(ps: seq<Packet>, f: Fault)
    requires Transfer(ps) && NumberSeen(ps[0], f)
    ensures Good(ps, {}, 0, f, StepOf(Begun(), ps[0], f))
  {
    hide Unescape;
    var q := Quote(ps);
    assert ps[0].n == 0 && ps[0].kind == Send;
    assert Kept(ps, q, {}, 0) == [] && Piece(ps, q, 0) == [];
    assert Pending(ps, q, 1) == Pending(ps, q, 0) == false;
  }

  lemma {:induction false} AfterEach(ps: seq<Packet>, es: seq<Event>, k: nat)
    requires Transfer(ps) && Legal(ps, es) && k < |es|
    ensures Good(ps, Lost(es[..k + 1]), es[k].index, es[k].fault, Received(ps, es[..k + 1]))
    ensures forall m {:trigger m in Lost(es[..k + 1])} | m in Lost(es[..k + 1]) :: m < es[k].index
    decreases k
  {
    hide Good, StepOf, Received, Lost, NumberSeen, Transfer;
    var e := es[k];
    assert es[..k + 1] == es[..k] + [e];
    ReceivedMore(ps, es[..k], e);
    LostMore(es, k);
    if k == 0 {
      assert es[..0] == [];
      NothingYet(ps);
      Start(ps, e.fault);
    } else {
      AfterEach(ps, es, k - 1);
      assert es[..k - 1 + 1] == es[..k];
      assert Follows(es, k);
      var i, r := es[k - 1].index, Received(ps, es[..k]);
      if e.index == i {
        Repeat(ps, Lost(es[..k]), i, es[k - 1].fault, e.fault, r);
      } else {
        Advance(ps, Lost(es[..k]), i, e.fault, r);
      }
    }
  }

  lemma NothingYet(ps: seq<Packet>)
    ensures Received(ps, []) == Begun() && Lost([]) == {}
  {
  }

  lemma LostMore(es: seq<Event>, k: nat)
    requires k < |es|
    ensures Lost(es[..k + 1]) ==
            if FirstCopy(es, k) && es[k].fault != Intact && es[k].index > 0 then Lost(es[..k]) + {es[k].index - 1} else Lost(es[..k])
  {
    var fs := es[..k + 1];
    assert fs[..k] == es[..k] && fs[k] == es[k];
    assert FirstCopy(fs, k) == FirstCopy(es, k);
    assert Lost(es[..k]) + {} == Lost(es[..k]);
  }

  // ------------------------------------------------------------------
  // The whole transfer

  ghost predicate Complete(ps: seq<Packet>, es: seq<Event>) {
    Transfer(ps) && Legal(ps, es) && es[|es| - 1] == Event(|ps| - 1, Intact)
  }

  /** What the file gets: the data of all packets, each once and in order, but for the
      packets followed by one whose first copy was damaged. */
  lemma {:induction false} FileGets(ps: seq<Packet>, es: seq<Event>)
    requires Complete(ps, es)
    ensures Received(ps, es).out == Kept(ps, Quote(ps), Lost(es), |ps|)
  {
    var n := |es| - 1;
    AfterEach(ps, es, n);
    assert es[..n + 1] == es;
    assert Piece(ps, Quote(ps), |ps| - 1) == [];
    var k := Kept(ps, Quote(ps), Lost(es), |ps| - 1);
    assert k + [] == k;
  }

  /** How much is lost of the first j packets. */
  function Missing(ps: seq<Packet>, q: byte, lost: set<nat>, j: nat): nat
    requires j <= |ps|
  {
    if j == 0 then 0 else Missing(ps, q, lost, j - 1) + if j - 1 in lost then |Piece(ps, q, j - 1)| else 0
  }

  lemma {:induction false} KeptLength(ps: seq<Packet>, q: byte, lost: set<nat>, j: nat)
    requires j <= |ps|
    ensures |Kept(ps, q, lost, j)| + Missing(ps, q, lost, j) == |Kept(ps, q, {}, j)|
  {
    hide Piece;
    if j > 0 {
      KeptLength(ps, q, lost, j - 1);
    }
  }

  lemma {:induction false} NothingMissing(ps: seq<Packet>, q: byte, lost: set<nat>, j: nat)
    requires j <= |ps|
    ensures Missing(ps, q, lost, j) == 0 ==> Kept(ps, q, lost, j) == Kept(ps, q, {}, j)
    ensures Missing(ps, q, lost, j) == 0 <==> forall m | 0 <= m < j && m in lost :: Piece(ps, q, m) == []
  {
    hide Piece;
    if j > 0 {
      NothingMissing(ps, q, lost, j - 1);
    }
  }

  /** The transfer is right exactly when no packet that carried data was followed by one
      whose first copy was damaged. */
  lemma {:induction false} TransferRight(ps: seq<Packet>, es: seq<Event>)
    requires Complete(ps, es)
    ensures Received(ps, es).out == Kept(ps, Quote(ps), {}, |ps|) <==>
            forall m {:trigger m in Lost(es)} | m in Lost(es) :: m < |ps| && Piece(ps, Quote(ps), m) == []
  {
    hide Kept, Piece, Missing, Received;
    FileGets(ps, es);
    KeptLength(ps, Quote(ps), Lost(es), |ps|);
    NothingMissing(ps, Quote(ps), Lost(es), |ps|);
    AfterEach(ps, es, |es| - 1);
    assert es[..|es|] == es;
  }

  /** Repeats alone lose and duplicate nothing. */
  lemma {:induction false} RepeatsHarmless(ps: seq<Packet>, es: seq<Event>)
    requires Complete(ps, es) && forall k {:trigger es[k]} | 0 <= k < |es| :: es[k].fault == Intact
    ensures Received(ps, es).out == Kept(ps, Quote(ps), {}, |ps|)
  {
    FileGets(ps, es);
    NoneLost(es);
  }

  lemma {:induction false} NoneLost(es: seq<Event>)
    requires forall k {:trigger es[k]} | 0 <= k < |es| :: es[k].fault == Intact
    ensures Lost(es) == {}
  {
    if es != [] {
      NoneLost(es[..|es| - 1]);
    }
  }

  // ------------------------------------------------------------------
  // Cutting the stream into packets

  /** The data of the first j packets, end to end as they were sent. */
  function Payloads(ps: seq<Packet>, j: nat): seq<byte>
    requires j <= |ps|
  {
    if j == 0 then [] else Payloads(ps, j - 1) + if ps[j - 1].kind == Data then ps[j - 1].payload else []
  }

  lemma {:induction false} CutAnywhere(ps: seq<Packet>, q: byte, j: nat)
    requires j <= |ps|
    ensures Unescape(false, q, Payloads(ps, j)) == (Kept(ps, q, {}, j), Pending(ps, q, j))
  {
    hide Unescape;
    if j == 0 {
      NothingSent(q);
    } else {
      CutAnywhere(ps, q, j - 1);
      var a := Payloads(ps, j - 1);
      if ps[j - 1].kind == Data {
        UnescapeJoin(false, q, a, ps[j - 1].payload);
      } else {
        assert a + [] == a;
        var k := Kept(ps, q, {}, j - 1);
        assert k + [] == k;
      }
    }
  }

  /** A file encoded with a usable prefix and cut into packets anywhere, even between a
      prefix and the character it belongs to, arrives as it was, however often intact
      packets are repeated. */
  lemma {:induction false} FileArrives(data: seq<byte>, q: byte, ps: seq<Packet>, es: seq<Event>)
    requires Complete(ps, es) && forall k {:trigger es[k]} | 0 <= k < |es| :: es[k].fault == Intact
    requires Names(ps[0], q) && Usable(q) && Payloads(ps, |ps|) == Encode(data, q)
    ensures Received(ps, es).out == data
  {
    RepeatsHarmless(ps, es);
    QuoteNamed(ps[0]);
    CutAnywhere(ps, q, |ps|);
    StreamComesThrough(data, q);
  }

  lemma NothingSent(q: byte)
    ensures Unescape(false, q, []) == ([], false)
  {
  }

  /** Damage before the sequence number of the next packet is known changes nothing,
      unless a prefix has become pending or has been used up in the packet before. */
  lemma {:induction false} EarlyDamage(ps: seq<Packet>, lost: set<nat>, i: nat, r: Receiver, p: Packet)
    requires i < |ps| && Good(ps, lost, i, Intact, r)
    ensures StepOf(r, p, Early) == r <==> Pending(ps, Quote(ps), i) == Pending(ps, Quote(ps), i + 1)
  {
    hide Unescape, Kept, Piece;
  }

  // ------------------------------------------------------------------
  // Damage before the sequence number, over whole transfers

  /** What the receiver can make anything of. */
  function Heard(es: seq<Event>): seq<Event> {
    if es == [] then []
    else
      var hs := Heard(es[..|es| - 1]);
      if es[|es| - 1].fault == Early then hs else hs + [es[|es| - 1]]
  }

  /** Before each copy that is lost like that, the last packet that arrived had neither
      begun nor ended in the middle of a prefixed character, or was damaged itself. */
  ghost predicate Steady(ps: seq<Packet>, es: seq<Event>)
    requires ps != []
  {
    forall k {:trigger es[k]} | 0 <= k < |es| && es[k].fault == Early :: Calm(ps, Heard(es[..k]))
  }

  ghost predicate Calm(ps: seq<Packet>, hs: seq<Event>)
    requires ps != []
  {
    hs != [] && hs[|hs| - 1].fault == Intact ==>
      var i := hs[|hs| - 1].index;
      i < |ps| && Pending(ps, Quote(ps), i) == Pending(ps, Quote(ps), i + 1)
  }

  lemma {:induction false} HeardPrefix(es: seq<Event>, k: nat)
    requires k <= |es|
    ensures Heard(es[..k]) <= Heard(es)
    decreases |es| - k
  {
    if k == |es| {
      assert es[..k] == es;
    } else {
      HeardPrefix(es, k + 1);
      assert es[..k + 1][..k] == es[..k];
    }
  }

  lemma {:induction false} HeardRange(ps: seq<Packet>, es: seq<Event>)
    requires forall j {:trigger es[j]} | 0 <= j < |es| :: es[j].index < |ps|
    ensures forall j {:trigger Heard(es)[j]} | 0 <= j < |Heard(es)| :: Heard(es)[j].index < |ps|
  {
    if es != [] {
      HeardRange(ps, es[..|es| - 1]);
    }
  }

  lemma HeardMore(es: seq<Event>, e: Event)
    ensures Heard(es + [e]) == if e.fault == Early then Heard(es) else Heard(es) + [e]
  {
    assert (es + [e])[..|es|] == es;
  }

  /** Such damage is as if nothing had been sent. */
  lemma {:induction false} EarlyIgnored(ps: seq<Packet>, es: seq<Event>, k: nat)
    requires Transfer(ps) && Legal(ps, Heard(es)) && Steady(ps, es) && k <= |es|
    requires forall j {:trigger es[j]} | 0 <= j < |es| :: es[j].index < |ps|
    ensures forall j {:trigger Heard(es[..k])[j]} | 0 <= j < |Heard(es[..k])| :: Heard(es[..k])[j].index < |ps|
    ensures Received(ps, es[..k]) == Received(ps, Heard(es[..k]))
    decreases k
  {
    hide StepOf, Transfer, Legal, Calm, Heard, Received;
    HeardRange(ps, es[..k]);
    if k == 0 {
      assert es[..0] == [];
      NothingHeard();
    } else {
      EarlyIgnored(ps, es, k - 1);
      var fs, e := es[..k - 1], es[k - 1];
      assert es[..k] == fs + [e];
      ReceivedMore(ps, fs, e);
      HeardMore(fs, e);
      if e.fault == Early {
        HeardPrefix(es, k - 1);
        EarlyNothing(ps, Heard(es), Heard(fs), ps[e.index]);
      } else {
        ReceivedMore(ps, Heard(fs), e);
      }
    }
  }

  lemma NothingHeard()
    ensures Heard([]) == []
  {
  }

  lemma EarlyNothing(ps: seq<Packet>, es: seq<Event>, hs: seq<Event>, p: Packet)
    requires Transfer(ps) && Legal(ps, es) && hs <= es && Calm(ps, hs)
    requires forall j {:trigger hs[j]} | 0 <= j < |hs| :: hs[j].index < |ps|
    ensures StepOf(Received(ps, hs), p, Early) == Received(ps, hs)
  {
    hide Unescape, Kept, Piece, Pending, Transfer;
    if hs != [] {
      var n := |hs| - 1;
      AfterEach(ps, es, n);
      assert es[..n + 1] == hs && es[n] == hs[n];
      var r, lost := Received(ps, hs), Lost(hs);
      if hs[n].fault == Intact {
        EarlyDamage(ps, lost, hs[n].index, r, p);
      }
    }
  }

  /** So the condition for a right transfer is the same with such damage, looking only at
      the copies that were heard. */
  lemma TransferRightEarly(ps: seq<Packet>, es: seq<Event>)
    requires Complete(ps, Heard(es)) && Steady(ps, es)
    requires forall j {:trigger es[j]} | 0 <= j < |es| :: es[j].index < |ps|
    ensures Received(ps, es).out == Kept(ps, Quote(ps), {}, |ps|) <==>
            forall m {:trigger m in Lost(Heard(es))} | m in Lost(Heard(es)) :: m < |ps| && Piece(ps, Quote(ps), m) == []
  {
    hide Kept, Piece, Received, Lost, Steady;
    assert es[..|es|] == es;
    EarlyIgnored(ps, es, |es|);
    TransferRight(ps, Heard(es));
  }

  // ------------------------------------------------------------------
  // A transfer that goes wrong

  function TwoPackets(x: byte, y: byte): seq<Packet> {
    [Packet(0, Send, []), Packet(1, Data, [x]), Packet(2, Data, [y]), Packet(3, Break, [])]
  }

  function SecondDamaged(): seq<Event> {
    [Event(0, Intact), Event(1, Intact), Event(2, Late(2, 0)), Event(2, Intact), Event(3, Intact)]
  }

  /** Two packets of data, the first copy of the second damaged: the file gets only the
      second. */
  lemma DamagedTransfer(x: byte, y: byte)
    requires x != HASH && y != HASH
    ensures var ps, es := TwoPackets(x, y), SecondDamaged();
            Complete(ps, es) && Received(ps, es).out == [y] && Kept(ps, Quote(ps), {}, |ps|) == [x, y]
  {
    hide *;
    var ps, es := TwoPackets(x, y), SecondDamaged();
    DamagedComplete(x, y);
    DamagedLost();
    FileGets(ps, es);
    DamagedKept(x, y);
  }

  lemma DamagedComplete(x: byte, y: byte)
    ensures |TwoPackets(x, y)| == 4 && Complete(TwoPackets(x, y), SecondDamaged())
  {
    var es := SecondDamaged();
    assert Follows(es, 1) && Follows(es, 2) && Follows(es, 3) && Follows(es, 4);
  }

  lemma DamagedLost()
    ensures Lost(SecondDamaged()) == {1}
  {
    var es := SecondDamaged();
    assert es[..4][..3] == es[..3] && es[..3][..2] == es[..2] && es[..2][..1] == es[..1] && es[..1][..0] == [];
    assert Lost(es[..1]) == {};
    assert Lost(es[..2]) == {};
    assert Lost(es[..3]) == {1};
    assert Lost(es[..4]) == {1};
  }

  lemma DamagedKept(x: byte, y: byte)
    requires x != HASH && y != HASH
    ensures var ps := TwoPackets(x, y);
            |ps| == 4 && Kept(ps, Quote(ps), {1}, 4) == [y] && Kept(ps, Quote(ps), {}, 4) == [x, y]
  {
    hide Unescape;
    var ps := TwoPackets(x, y);
    var q := Quote(ps);
    UnescapeOne(false, q, x);
    UnescapeOne(false, q, y);
    assert !Pending(ps, q, 1);
    assert !Pending(ps, q, 2);
    assert Piece(ps, q, 0) == [] && Piece(ps, q, 1) == [x] && Piece(ps, q, 2) == [y] && Piece(ps, q, 3) == [];
    KeptOfFour(ps, q, {1});
    KeptOfFour(ps, q, {});
  }

  lemma KeptOfFour(ps: seq<Packet>, q: byte, lost: set<nat>)
    requires |ps| == 4 && Piece(ps, q, 0) == [] && Piece(ps, q, 3) == []
    ensures Kept(ps, q, lost, 4) == (if 1 in lost then [] else Piece(ps, q, 1)) + (if 2 in lost then [] else Piece(ps, q, 2))
  {
    hide Piece;
    assert Kept(ps, q, lost, 1) == [];
    assert Kept(ps, q, lost, 2) == if 1 in lost then [] else Piece(ps, q, 1);
    assert Kept(ps, q, lost, 3) == Kept(ps, q, lost, 2) + if 2 in lost then [] else Piece(ps, q, 2);
    assert Kept(ps, q, lost, 4) == Kept(ps, q, lost, 3) + [];
  }
}
