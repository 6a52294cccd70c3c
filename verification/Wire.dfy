/**
 The request stream shared by the Encore and Revenant servers: an eight-byte header
 (op, flags, id, arg_len) followed by arg_len bytes of argument, read from a transport that
 hands the bytes over in pieces of its own choosing.
 */
module Wire {
  import opened Bytes

  const HEADER_SIZE: nat := 8
  const MAX_ARG: nat := ONE_MIB

  datatype Request = Request(op: byte, flags: byte, id: nat, arg: seq<byte>)

  ghost predicate WellFormed(r: Request) {
    r.id < 0x1_0000 && |r.arg| <= MAX_ARG
  }

  /** What the reader makes of the bytes in front of it. */
  datatype Next = End | TooBig | Got(req: Request, rest: seq<byte>)

  function NextRequest(b: seq<byte>): (r: Next)
    ensures r.Got? ==> WellFormed(r.req) && |r.rest| == |b| - HEADER_SIZE - |r.req.arg|
  {
    if |b| < HEADER_SIZE then End else
    var n := U32At(b, 4);
    if n > MAX_ARG then TooBig
    else if |b| < HEADER_SIZE + n then End
    else Got(Request(b[0], b[1], U16At(b, 2), b[HEADER_SIZE..HEADER_SIZE + n]), b[HEADER_SIZE + n..])
  }

  /** Every request the stream delivers before it ends or is cut off. */
  function Requests(b: seq<byte>): seq<Request>
    decreases |b|
  {
    match NextRequest(b)
    case Got(r, rest) => [r] + Requests(rest)
    case _ => []
  }

  /** The requests among `rs` whose op the dispatch table has. */
  function Known(rs: seq<Request>, maxOp: nat): (k: seq<Request>)
    ensures forall i :: 0 <= i < |k| ==> k[i].op <= maxOp
  {
    if rs == [] then []
    else (if rs[0].op <= maxOp then [rs[0]] else []) + Known(rs[1..], maxOp)
  }

  /** The bytes of a request: op, flags, id and length, low byte first, then the argument.  It is there when all of
      them are; a length over 2^20 stops the reader whatever follows, and fewer bytes are no request. */
  lemma RequestLayout(b: seq<byte>)
    requires |b| >= 8
    ensures var n := (b[4] as int) + 0x100 * (b[5] as int) + 0x1_0000 * (b[6] as int) + 0x100_0000 * (b[7] as int);
            NextRequest(b) ==
            if n > 0x10_0000 then TooBig
            else if |b| - 8 < n then End
            else Got(Request(b[0], b[1], (b[2] as int) + 0x100 * (b[3] as int), b[8..8 + n]), b[8 + n..])
  {
  }

  lemma HeaderCutShort(b: seq<byte>)
    requires |b| < 8
    ensures NextRequest(b) == End
  {
  }

  /** Requests whose op the table has are all kept. */
  lemma {:induction false} KnownKeeps(rs: seq<Request>, maxOp: nat)
    requires forall i :: 0 <= i < |rs| ==> rs[i].op <= maxOp
    ensures Known(rs, maxOp) == rs
  {
    if rs != [] { KnownKeeps(rs[1..], maxOp); }
  }

  /** A request whose op it has not is left out, wherever it comes, and only that. */
  lemma {:induction false} KnownSkips(before: seq<Request>, r: Request, after: seq<Request>, maxOp: nat)
    requires r.op > maxOp
    ensures Known(before + [r] + after, maxOp) == Known(before + after, maxOp)
  {
    if before == [] {
      assert (before + [r] + after)[1..] == before + after;
    } else {
      KnownSkips(before[1..], r, after, maxOp);
      assert (before + [r] + after)[1..] == before[1..] + [r] + after;
      assert (before + after)[1..] == before[1..] + after;
    }
  }

  // ---- the encoder's side --------------------------------------------------

  function Encode(r: Request): seq<byte>
    requires WellFormed(r)
  {
    [r.op, r.flags] + PutU16(r.id) + PutU32(|r.arg|) + r.arg
  }

  function EncodeAll(rs: seq<Request>): seq<byte>
    requires forall i :: 0 <= i < |rs| ==> WellFormed(rs[i])
  {
    if rs == [] then [] else Encode(rs[0]) + EncodeAll(rs[1..])
  }

  lemma HeaderOf(r: Request, rest: seq<byte>)
    requires WellFormed(r)
    ensures var b := Encode(r) + rest;
            |b| >= HEADER_SIZE + |r.arg| && b[0] == r.op && b[1] == r.flags &&
            U16At(b, 2) == r.id && U32At(b, 4) == |r.arg| &&
            b[HEADER_SIZE..HEADER_SIZE + |r.arg|] == r.arg && b[HEADER_SIZE + |r.arg|..] == rest
  {
    var h, l := PutU16(r.id), PutU32(|r.arg|);
    var b := Encode(r) + rest;
    assert b == [r.op, r.flags] + h + l + r.arg + rest;
    assert b[2] == h[0] && b[3] == h[1];
    assert b[4] == l[0] && b[5] == l[1] && b[6] == l[2] && b[7] == l[3];
  }

  lemma NextOfEncode(r: Request, rest: seq<byte>)
    requires WellFormed(r)
    ensures NextRequest(Encode(r) + rest) == Got(r, rest)
  {
    HeaderOf(r, rest);
  }

  /** A request is read from its own bytes, whatever follows them. */
  lemma NextOfPrefix(b: seq<byte>, more: seq<byte>)
    requires NextRequest(b).Got?
    ensures var rest := NextRequest(b).rest;
            NextRequest(b[..|b| - |rest|] + more) == Got(NextRequest(b).req, more)
  {
    var n := HEADER_SIZE + |NextRequest(b).req.arg|;
    var c := b[..n] + more;
    assert forall i :: 0 <= i < n ==> c[i] == b[i];
    assert c[HEADER_SIZE..n] == b[HEADER_SIZE..n] && c[n..] == more;
  }

  /** Encoded requests are read back as they were, whatever incomplete tail follows them. */
  lemma {:induction false} RequestsRoundTrip(rs: seq<Request>, tail: seq<byte>)
    requires forall i :: 0 <= i < |rs| ==> WellFormed(rs[i])
    requires !NextRequest(tail).Got?
    ensures Requests(EncodeAll(rs) + tail) == rs
  {
    if rs == [] {
      assert EncodeAll(rs) + tail == tail;
    } else {
      var rest := EncodeAll(rs[1..]) + tail;
      assert EncodeAll(rs) + tail == Encode(rs[0]) + rest;
      NextOfEncode(rs[0], rest);
      RequestsRoundTrip(rs[1..], tail);
    }
  }

  // ---- the transport -------------------------------------------------------

  function Flatten(chunks: seq<seq<byte>>): seq<byte> {
    if chunks == [] then [] else chunks[0] + Flatten(chunks[1..])
  }

  /** The pieces of a connection are its bytes in the order they come in. */
  lemma {:induction false} PiecesInOrder(a: seq<seq<byte>>, piece: seq<byte>, b: seq<seq<byte>>)
    ensures Flatten([]) == [] && Flatten(a + [piece] + b) == Flatten(a) + piece + Flatten(b)
  {
    var all := a + [piece] + b;
    if a == [] {
      assert all[0] == piece && all[1..] == b;
    } else {
      PiecesInOrder(a[1..], piece, b);
      assert all[0] == a[0] && all[1..] == a[1..] + [piece] + b;
      ConcatAssoc(a[0], Flatten(a[1..]), piece);
      ConcatAssoc(a[0], Flatten(a[1..]) + piece, Flatten(b));
    }
  }

  /** A connection: each element of `chunks` is what one read finds waiting. */
  class Conn {
    var chunks: seq<seq<byte>>

    constructor (chunks: seq<seq<byte>>)
      requires forall i :: 0 <= i < |chunks| ==> chunks[i] != []
      ensures Valid() && this.chunks == chunks
    {
      this.chunks := chunks;
    }

    ghost predicate Valid()
      reads this
    {
      forall i :: 0 <= i < |chunks| ==> chunks[i] != []
    }

    ghost function Pending(): seq<byte>
      reads this
    {
      Flatten(chunks)
    }

    /** conn_read: at most `len` bytes, and none only when the peer has closed. */
    method Read(len: nat) returns (got: seq<byte>)
      requires Valid() && len > 0
      modifies this
      ensures Valid() && old(Pending()) == got + Pending()
      ensures |got| <= len && (got == [] <==> old(Pending()) == [])
    {
      if chunks == [] { return []; }
      var c := chunks[0];
      if |c| <= len {
        got, chunks := c, chunks[1..];
      } else {
        got, chunks := c[..len], [c[len..]] + chunks[1..];
        assert c == got + chunks[0];
      }
    }

    /** conn_read_full: all `len` bytes, or -1 with the stream used up. */
    method ReadFull(len: nat) returns (ok: bool, buf: seq<byte>)
      requires Valid()
      modifies this
      ensures Valid() && ok == (len <= |old(Pending())|)
      ensures ok ==> |buf| == len && old(Pending()) == buf + Pending()
      ensures !ok ==> Pending() == []
    {
      buf := [];
      while |buf| < len
        invariant Valid() && |buf| <= len && old(Pending()) == buf + Pending()
      {
        ghost var before, p := buf, Pending();
        var got := Read(len - |buf|);
        if got == [] { return false, buf; }
        buf := buf + got;
        assert before + (got + Pending()) == (before + got) + Pending();
      }
      return true, buf;
    }

    /** The reading half of `serve`: one request, or why there is none. */
    method NextFrame() returns (r: Option<Request>, tooBig: bool)
      requires Valid()
      modifies this
      ensures Valid()
      ensures NextRequest(old(Pending())) ==
        match r
        case Some(req) => Got(req, Pending())
        case None => if tooBig then TooBig else End
    {
      var ok, h := ReadFull(HEADER_SIZE);
      if !ok { return None, false; }
      ghost var all := h + Pending();
      assert forall i :: 0 <= i < 8 ==> all[i] == h[i];
      var n := U32At(h, 4);
      if n > MAX_ARG { return None, true; }
      var arg := [];
      if n > 0 {
        ok, arg := ReadFull(n);
        if !ok { return None, false; }
      }
      assert all == h + arg + Pending();
      assert all[8..8 + n] == arg && all[8 + n..] == Pending();
      return Some(Request(h[0], h[1], U16At(h, 2), arg)), false;
    }
  }
}
