/** The receiving end of a Kermit transfer, packet by packet. */
module KermitReceiver {
  import opened Octets
  import opened KermitCode

  datatype Kind = Send | Data | Break | Other

  datatype Packet = Packet(n: nat, kind: Kind, payload: seq<byte>)

  /** How a packet arrives: whole; damaged before its sequence number is known; damaged
      between that and the data; or damaged after so many bytes of data.  `seen` is the
      sequence number that was read, which may itself be damaged. */
  datatype Fault = Intact | Early | Header(seen: nat) | Late(seen: nat, got: nat)

  /** `out` has been handed on to the file; `held` is the data of the last packet that was
      acknowledged, `cur` that of the packet being received. */
  datatype Receiver = Receiver(out: seq<byte>, held: seq<byte>, cur: seq<byte>, escape: bool, saved: bool, lastN: int, quote: byte)

  function Begun(): Receiver {
    Receiver([], [], [], false, false, -1, HASH)
  }

  /** The sequence number is known.  When it is that of the packet before, the buffers are
      dumped and the translation goes back to where that packet began. */
  function Arrived(r: Receiver, n: nat): Receiver {
    if n == r.lastN then r.(escape := r.saved, held := [], cur := [])
    else r.(lastN := n, saved := r.escape)
  }

  /** `got` of the data has been received: a packet with data gets a new buffer. */
  function Taken(r: Receiver, p: Packet, got: seq<byte>): Receiver {
    var cur := if p.payload == [] then r.cur else [];
    if p.kind == Data then
      var (d, e) := Unescape(r.escape, r.quote, got);
      r.(cur := cur + d, escape := e)
    else r.(cur := cur)
  }

  function QuoteOf(payload: seq<byte>): byte {
    if |payload| >= 6 then payload[5] else HASH
  }

  /** The sender of this packet uses the prefix `q`: the sixth byte of its parameters, or the
      number sign if there are fewer. */
  ghost predicate Names(p: Packet, q: byte) {
    if 6 <= |p.payload| then q == p.payload[5] else q == 0x23
  }

  /** os_data_save */
  function Saved(r: Receiver): Receiver {
    r.(out := r.out + r.held, held := r.cur, cur := [])
  }

  function Accepted(r: Receiver, p: Packet): Receiver {
    match p.kind
    case Send => r.(quote := QuoteOf(p.payload))
    case Break => Saved(Saved(r))
    case _ => Saved(r)
  }

  function StepOf(r: Receiver, p: Packet, f: Fault): Receiver {
    match f
    case Early => r.(escape := r.saved)
    case Header(seen) =>
      var a := Arrived(r, seen);
      a.(escape := a.saved)
    case Late(seen, got) =>
      var a := Arrived(r, seen);
      Taken(a, p, if got <= |p.payload| then p.payload[..got] else p.payload).(escape := a.saved)
    case Intact => Accepted(Taken(Arrived(r, p.n), p, p.payload), p)
  }

  lemma TakenKeeps(r: Receiver, p: Packet, got: seq<byte>)
    ensures Taken(r, p, got).saved == r.saved
  {
  }

  /** A copy that is damaged passes nothing on.  If its number was read as that of the packet
      before, what is held is dropped; the number read is remembered. */
  lemma Damaged(r: Receiver, p: Packet, f: Fault)
    ensures var s := StepOf(r, p, f);
            && (f == Early ==> s.lastN == r.lastN && s.held == r.held)
            && (f.Header? || f.Late? ==> s.lastN == f.seen && s.held == if f.seen == r.lastN then [] else r.held)
            && (f != Intact ==> s.out == r.out && s.escape == s.saved && s.quote == r.quote)
            && (f == Intact ==> s.lastN == p.n)
  {
    hide Unescape, QuoteOf;
  }

  lemma StepIs(r: Receiver, p: Packet, f: Fault)
    ensures f == Early ==> StepOf(r, p, f) == r.(escape := r.saved)
    ensures f.Header? ==> var a := Arrived(r, f.seen); StepOf(r, p, f) == a.(escape := a.saved)
    ensures f.Late? ==> var a := Arrived(r, f.seen);
              StepOf(r, p, f) == Taken(a, p, if f.got <= |p.payload| then p.payload[..f.got] else p.payload).(escape := a.saved)
    ensures f == Intact ==> StepOf(r, p, f) == Accepted(Taken(Arrived(r, p.n), p, p.payload), p)
  {
    hide Arrived, Taken, Accepted;
  }

  lemma QuoteNamed(p: Packet)
    ensures Names(p, QuoteOf(p.payload))
  {
  }

  lemma UnescapeNothing(escape: bool, q: byte)
    ensures Unescape(escape, q, []) == ([], escape)
  {
  }

  lemma UnescapeMore(escape: bool, q: byte, s: seq<byte>, k: nat)
    requires k < |s|
    ensures var (front, e) := Unescape(escape, q, s[..k]);
            var (d, e') := KDataChar(e, q, s[k]);
            Unescape(escape, q, s[..k + 1]) == (front + d, e')
  {
    assert s[..k + 1][..k] == s[..k];
  }

  // ------------------------------------------------------------------
  // In place

  const MAX_WRITE := 4096

  class Kermit {
    var file: seq<byte>
    var buffer: seq<byte>          // what is in write_buffer
    var held: seq<byte>
    var cur: seq<byte>
    var escape: bool
    var saved: bool
    var lastN: int
    var quote: byte

    ghost predicate Valid()
      reads this
    {
      |buffer| <= MAX_WRITE
    }

    ghost function Now(): Receiver
      reads this
    {
      Receiver(file + buffer, held, cur, escape, saved, lastN, quote)
    }

    /** The initialisation at the top of k_recv. */
    constructor ()
      ensures Valid() && Now() == Begun()
    {
      file, buffer, held, cur, escape, saved, lastN, quote := [], [], [], [], false, false, -1, HASH;
    }

    /** os_data_save: through the write buffer to the file, a buffer at a time. */
    method DataSave()
      requires Valid()
      modifies this
      ensures Valid() && Now() == Saved(old(Now()))
    {
      ghost var whole := file + buffer + held;
      while |held| > 0
        invariant Valid() && file + buffer + held == whole
        invariant cur == old(cur) && escape == old(escape) && saved == old(saved) && lastN == old(lastN) && quote == old(quote)
        decreases |held|, |buffer|
      {
        if |buffer| == MAX_WRITE {
          file, buffer := file + buffer, [];
        } else {
          var copy := if |held| < MAX_WRITE - |buffer| then |held| else MAX_WRITE - |buffer|;
          assert held[..copy] + held[copy..] == held;
          assert buffer + held == buffer + held[..copy] + held[copy..];
          buffer, held := buffer + held[..copy], held[copy..];
        }
      }
      assert file + buffer == whole;
      held, cur := cur, [];
    }

    /** The check for a repeated sequence number. */
    method Arrive(n: nat)
      requires Valid()
      modifies this
      ensures Valid() && Now() == Arrived(old(Now()), n)
    {
      if n == lastN {
        escape, held, cur := saved, [], [];
      } else {
        lastN, saved := n, escape;
      }
    }

    /** What is done with a packet that is whole. */
    method Accept(p: Packet)
      requires Valid()
      modifies this
      ensures Valid() && Now() == Accepted(old(Now()), p) && (p.kind == Send ==> quote == QuoteOf(p.payload))
    {
      hide Saved, QuoteOf;
      match p.kind {
        case Send => quote := QuoteOf(p.payload);
        case Break =>
          DataSave();
          DataSave();
        case _ => DataSave();
      }
    }

    /** One packet: the body of the main loop of k_recv.  The result is whether it is
        acknowledged. */
    method Receive(p: Packet, f: Fault) returns (ack: bool)
      requires Valid()
      modifies this
      ensures Valid() && Now() == StepOf(old(Now()), p, f) && ack == (f == Intact)
      ensures f == Intact && p.kind == Send ==> Names(p, quote)
      ensures f == Early ==> lastN == old(lastN) && held == old(held)
      ensures f.Header? || f.Late? ==> lastN == f.seen && held == if f.seen == old(lastN) then [] else old(held)
      ensures f != Intact ==> file + buffer == old(file + buffer) && escape == saved && quote == old(quote)
      ensures f == Intact ==> lastN == p.n
    {
      hide Arrived, Taken, Accepted, StepOf;
      Damaged(Now(), p, f);
      StepIs(Now(), p, f);
      if f == Early {
        escape := saved;
        return false;
      }
      Arrive(if f == Intact then p.n else f.seen);
      ghost var a := Now();
      if f.Header? {
        escape := saved;
        return false;
      }
      var got := if f.Late? && f.got <= |p.payload| then p.payload[..f.got] else p.payload;
      if p.payload != [] {
        cur := [];
      }
      TakeData(p, got, a);
      TakenKeeps(a, p, got);
      QuoteNamed(p);
      if f != Intact {
        escape := saved;
        return false;
      }
      Accept(p);
      return true;
    }

    /** The loop over the data of a packet. */
    method TakeData(p: Packet, got: seq<byte>, ghost a: Receiver)
      requires Valid() && Now() == a.(cur := if p.payload == [] then a.cur else [])
      modifies this
      ensures Valid() && Now() == Taken(a, p, got) && buffer == old(buffer)
    {
      hide Unescape, KDataChar;
      var k := 0;
      ghost var c := cur;
      UnescapeNothing(a.escape, a.quote);
      while k < |got|
        invariant 0 <= k <= |got| && Valid() && file == old(file) && buffer == old(buffer) && held == old(held)
        invariant saved == old(saved) && lastN == old(lastN) && quote == a.quote
        invariant if p.kind == Data then cur == c + Unescape(a.escape, a.quote, got[..k]).0 && escape == Unescape(a.escape, a.quote, got[..k]).1
                  else cur == c && escape == a.escape
      {
        if p.kind == Data {
          var (d, e) := KDataChar(escape, quote, got[k]);
          UnescapeMore(a.escape, a.quote, got, k);
          assert cur + d == c + (Unescape(a.escape, a.quote, got[..k]).0 + d);
          cur, escape := cur + d, e;
        }
        k := k + 1;
      }
      assert got[..k] == got;
    }
  }
}
