/**
  The tracker's peer record: its id is "address:port", and two peers are
  equal when address and port agree, whatever their id and timestamp.
 */
module Tracker {
  import opened Wrappers
  import opened Decimal

  /** Java's int. */
  newtype int32 = x: int | -0x8000_0000 <= x < 0x8000_0000

  /** Java int arithmetic: keep the low 32 bits, read as two's complement. */
  function WrapInt(x: int): (r: int32)
    ensures (r as int - x) % 0x1_0000_0000 == 0
  {
    var m := x % 0x1_0000_0000;
    if m >= 0x8000_0000 then (m - 0x1_0000_0000) as int32 else m as int32
  }

  datatype PeerDTO = PeerDTO(address: string, port: int32)

  /** The record; `millis` is the registration time, a parameter of Of. */
  datatype Peer = Peer(id: string, address: string, port: int32, millis: int)

  /** Peer.of: the id is address + ":" + port; address and port are copied. */
  function Of(dto: PeerDTO, millis: int): (p: Peer)
    ensures p.address == dto.address && p.port == dto.port && p.millis == millis
    ensures |p.id| > |dto.address| && p.id[..|dto.address|] == dto.address && p.id[|dto.address|] == ':'
  {
    Peer(dto.address + ":" + IntToString(dto.port as int), dto.address, dto.port, millis)
  }

  /** The position of the last `c` in `s`. */
  function LastIndexOf(s: string, c: char): (r: Option<nat>)
    ensures r.Some? ==> r.value < |s| && s[r.value] == c && forall k :: r.value < k < |s| ==> s[k] != c
    ensures r.None? ==> forall k :: 0 <= k < |s| ==> s[k] != c
  {
    if s == [] then None
    else if s[|s| - 1] == c then Some(|s| - 1)
    else LastIndexOf(s[..|s| - 1], c)
  }

  /** Reads an id back as (address, port), cutting at its last ':'. */
  function SplitId(id: string): Option<(string, int)> {
    match LastIndexOf(id, ':')
    case None => None
    case Some(j) => if IsIntString(id[j + 1..]) then Some((id[..j], ParseInt(id[j + 1..]))) else None
  }

  /** The id Of builds determines the address and port it was built from. */
  lemma OfIdRoundTrip(dto: PeerDTO, millis: int)
    ensures SplitId(Of(dto, millis).id) == Some((dto.address, dto.port as int))
  {
    var id := Of(dto, millis).id;
    var tail := IntToString(dto.port as int);
    var j := |dto.address|;
    assert id[j] == ':';
    assert forall k :: j < k < |id| ==> id[k] == tail[k - j - 1];
    var r := LastIndexOf(id, ':');
    assert r == Some(j);
    assert id[..j] == dto.address && id[j + 1..] == tail;
    ParseIntToString(dto.port as int);
  }

  /** The objects equals may be handed. */
  datatype Obj = Null | PeerObject(peer: Peer) | OtherObject

  /** equals: the same object, or another peer with the same address and port. */
  predicate Equals(p: Peer, o: Obj) {
    match o
    case Null => false
    case OtherObject => false
    case PeerObject(q) => p == q || (p.port == q.port && p.address == q.address)
  }

  /** Equality is exactly agreement on address and port; null and other classes are never equal. */
  lemma EqualsIff(p: Peer, o: Obj)
    ensures Equals(p, o) <==> o.PeerObject? && o.peer.address == p.address && o.peer.port == p.port
  {
  }

  lemma EqualsIsEquivalence(p: Peer, q: Peer, r: Peer)
    ensures Equals(p, PeerObject(p))
    ensures Equals(p, PeerObject(q)) ==> Equals(q, PeerObject(p))
    ensures Equals(p, PeerObject(q)) && Equals(q, PeerObject(r)) ==> Equals(p, PeerObject(r))
  {
  }

  /** Two registrations of the same DTO are equal, whenever they happened. */
  lemma OfIgnoresMillis(dto: PeerDTO, m1: int, m2: int)
    ensures Equals(Of(dto, m1), PeerObject(Of(dto, m2)))
  {
  }

  /** String.hashCode: h = 31 * h + c over the characters, in int arithmetic. */
  function StringHashCode(s: string): int32 {
    if s == [] then 0 else WrapInt(31 * StringHashCode(s[..|s| - 1]) as int + s[|s| - 1] as int)
  }

  /** hashCode: Objects.hash(address, port) = 31 * (31 * 1 + address.hashCode()) + port, in int arithmetic. */
  function HashCode(p: Peer): int32 {
    WrapInt(31 * WrapInt(31 * 1 + StringHashCode(p.address) as int) as int + p.port as int)
  }

  /** Equal peers have equal hash codes. */
  lemma EqualPeersHashAlike(p: Peer, q: Peer)
    requires Equals(p, PeerObject(q))
    ensures HashCode(p) == HashCode(q)
  {
  }
}
