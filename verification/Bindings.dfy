/** Data shared by the balancer's control plane and its packet program: BPF array maps, and the wire form of the destination list. */
module Bindings {
  import opened Words
  import opened Wrappers

  const MAGLEV_TABLE_SIZE: nat := 65537
  const DESTINATIONS_CAPACITY: nat := 256
  const ENTRY_SIZE: nat := 10

  /** An IPv4 address in network order, or any IPv6 address (IPv4-mapped ones included). */
  datatype Addr = V4(a: Byte, b: Byte, c: Byte, d: Byte) | V6(text: string)

  datatype DestinationEntry = DestinationEntry(ip: Addr, mac: seq<Byte>)

  // ---------- BPF array maps ----------

  /** A BPF_MAP_TYPE_ARRAY: a fixed number of entries, all zero at first, whose updates may fail. */
  class BpfArray<T> {
    var entries: seq<T>

    constructor (n: nat, zero: T)
      ensures entries == seq(n, _ => zero)
    {
      entries := seq(n, _ => zero);
    }

    method Put(key: nat, value: T) returns (ok: bool)
      modifies this
      ensures ok ==> key < |old(entries)| && entries == old(entries)[key := value]
      ensures !ok ==> entries == old(entries)
    {
      if key >= |entries| {
        return false;
      }
      if * {
        return false;
      }
      entries := entries[key := value];
      return true;
    }

    /** Array lookups succeed exactly on the keys below the capacity. */
    function Lookup(key: nat): (r: Option<T>)
      reads this
      ensures r == None <==> key >= |entries|
      ensures key < |entries| ==> r == Some(entries[key])
    {
      if key < |entries| then Some(entries[key]) else None
    }
  }

  // ---------- wire form of the destinations ----------

  /** The six bytes that `copy` leaves of a hardware address: cut or padded with zeros. */
  function MacBytes(mac: seq<Byte>): (r: seq<Byte>)
    ensures |r| == 6
    ensures forall j :: 0 <= j < 6 ==> r[j] == if j < |mac| then mac[j] else 0
  {
    seq(6, j requires 0 <= j < 6 => if j < |mac| then mac[j] else 0)
  }

  function EncodeEntry(e: DestinationEntry): (r: seq<Byte>)
    requires e.ip.V4?
    ensures |r| == ENTRY_SIZE
  {
    [e.ip.a, e.ip.b, e.ip.c, e.ip.d] + MacBytes(e.mac)
  }

  predicate AllV4(es: seq<DestinationEntry>) {
    forall i :: 0 <= i < |es| ==> es[i].ip.V4?
  }

  /** Cuts a marshalled list back into its entries, as the kernel does with a batch update. */
  function EntryAt(buf: seq<Byte>, i: nat): (r: seq<Byte>)
    requires ENTRY_SIZE * (i + 1) <= |buf|
    ensures |r| == ENTRY_SIZE
  {
    buf[ENTRY_SIZE * i..ENTRY_SIZE * (i + 1)]
  }

  function EncodeAll(es: seq<DestinationEntry>): (r: seq<Byte>)
    requires AllV4(es)
    ensures |r| == ENTRY_SIZE * |es|
  {
    if es == [] then [] else EncodeAll(es[..|es| - 1]) + EncodeEntry(es[|es| - 1])
  }

  /** Reading entry `i` back from the marshalled list gives the bytes of destination `i`. */
  lemma {:induction false} MarshalRoundTrip(es: seq<DestinationEntry>, i: nat)
    requires AllV4(es) && i < |es|
    ensures EntryAt(EncodeAll(es), i) == EncodeEntry(es[i])
    ensures var b, ip, mac := EntryAt(EncodeAll(es), i), es[i].ip, es[i].mac;
            && b[0] == ip.a && b[1] == ip.b && b[2] == ip.c && b[3] == ip.d
            && forall j :: 0 <= j < 6 ==> b[4 + j] == if j < |mac| then mac[j] else 0
  {
    if i < |es| - 1 {
      MarshalRoundTrip(es[..|es| - 1], i);
      assert EntryAt(EncodeAll(es), i) == EntryAt(EncodeAll(es[..|es| - 1]), i);
    }
  }

  /** Writes one entry at `bs` and touches nothing else. */
  method CopyEntry(buf: array<Byte>, bs: nat, e: DestinationEntry)
    requires e.ip.V4? && bs + ENTRY_SIZE <= buf.Length
    requires forall k :: bs <= k < buf.Length ==> buf[k] == 0
    modifies buf
    ensures forall k :: 0 <= k < bs ==> buf[k] == old(buf[k])
    ensures forall j :: 0 <= j < ENTRY_SIZE ==> buf[bs + j] == EncodeEntry(e)[j]
    ensures forall k :: bs + ENTRY_SIZE <= k < buf.Length ==> buf[k] == 0
  {
    buf[bs], buf[bs + 1], buf[bs + 2], buf[bs + 3] := e.ip.a, e.ip.b, e.ip.c, e.ip.d;
    var n := if |e.mac| < 6 then |e.mac| else 6;
    forall j | 0 <= j < n {
      buf[bs + 4 + j] := e.mac[j];
    }
  }

  method MarshalBinary(es: seq<DestinationEntry>) returns (r: Result<seq<Byte>, nat>)
    ensures r.Ok? <==> AllV4(es)
    ensures r.Ok? ==> r.value == EncodeAll(es)
    ensures r.Err? ==> r.error < |es| && es[r.error].ip.V6? && AllV4(es[..r.error])
  {
    var buf := new Byte[|es| * ENTRY_SIZE](_ => 0);
    var bs := 0;
    for i := 0 to |es|
      invariant bs == ENTRY_SIZE * i
      invariant AllV4(es[..i])
      invariant forall k :: bs <= k < buf.Length ==> buf[k] == 0
      invariant buf[..bs] == EncodeAll(es[..i])
    {
      if es[i].ip.V6? {
        return Err(i);
      }
      ghost var before := buf[..bs];
      CopyEntry(buf, bs, es[i]);
      bs := bs + ENTRY_SIZE;
      assert buf[..bs] == before + EncodeEntry(es[i]);
      assert es[..i + 1][..i] == es[..i];
    }
    assert es[..|es|] == es;
    assert buf[..bs] == buf[..];
    return Ok(buf[..]);
  }
}
